/** The structural HTML serializer of ErrorHandlerController
    (_serialize_html, _data_to_html, _get_html_meta_value, _ident_html),
    with htmlspecialchars(ENT_QUOTES), ctype_print and nl2br written out.
    var_dump is the host's and is a parameter. */
module HtmlRender {
  import opened Php

  // ------------------------------------------------------ htmlspecialchars

  function EscapeChar(c: char): string
  {
    if c == '&' then "&amp;"
    else if c == '<' then "&lt;"
    else if c == '>' then "&gt;"
    else if c == '"' then "&quot;"
    else if c == '\'' then "&#039;"
    else [c]
  }

  /** The characters htmlspecialchars(ENT_QUOTES) rewrites. */
  predicate IsSpecial(c: char)
  {
    c == '&' || c == '<' || c == '>' || c == '"' || c == '\''
  }

  /** htmlspecialchars($s, ENT_QUOTES): no tag or attribute delimiter
      survives, and text without special characters is left as it is. */
  function Escape(s: string): (r: string)
    ensures forall i :: 0 <= i < |r| ==> r[i] != '<' && r[i] != '>' && r[i] != '"' && r[i] != '\''
    ensures (forall i :: 0 <= i < |s| ==> !IsSpecial(s[i])) ==> r == s
  {
    if s == [] then [] else EscapeChar(s[0]) + Escape(s[1..])
  }

  /** htmlspecialchars_decode($s, ENT_QUOTES) for the five entities. */
  function Unescape(s: string): string
    decreases |s|
  {
    if s == [] then []
    else if s[0] != '&' then [s[0]] + Unescape(s[1..])
    else if |s| >= 5 && s[..5] == "&amp;" then "&" + Unescape(s[5..])
    else if |s| >= 4 && s[..4] == "&lt;" then "<" + Unescape(s[4..])
    else if |s| >= 4 && s[..4] == "&gt;" then ">" + Unescape(s[4..])
    else if |s| >= 6 && s[..6] == "&quot;" then "\"" + Unescape(s[6..])
    else if |s| >= 6 && s[..6] == "&#039;" then "'" + Unescape(s[6..])
    else [s[0]] + Unescape(s[1..])
  }

  lemma UnescapeChar(c: char, t: string)
    ensures Unescape(EscapeChar(c) + t) == [c] + Unescape(t)
  {
    var e := EscapeChar(c) + t;
    if c == '&' || c == '<' || c == '>' {
      UnescapeShortEntity(c, t);
    } else if c == '"' || c == '\'' {
      UnescapeLongEntity(c, t);
    } else {
      assert e[0] == c && e[1..] == t;
    }
  }

  lemma UnescapeShortEntity(c: char, t: string)
    requires c == '&' || c == '<' || c == '>'
    ensures Unescape(EscapeChar(c) + t) == [c] + Unescape(t)
  {
    var e := EscapeChar(c) + t;
    if c == '&' {
      assert e[..5] == "&amp;" && e[5..] == t;
    } else if c == '<' {
      assert e[1] == 'l';
      assert e[..4] == "&lt;" && e[4..] == t;
    } else {
      assert e[1] == 'g';
      assert e[..4] == "&gt;" && e[4..] == t;
    }
  }

  lemma UnescapeLongEntity(c: char, t: string)
    requires c == '"' || c == '\''
    ensures Unescape(EscapeChar(c) + t) == [c] + Unescape(t)
  {
    var e := EscapeChar(c) + t;
    if c == '"' {
      assert e[1] == 'q';
      assert e[..6] == "&quot;" && e[6..] == t;
    } else {
      assert e[1] == '#';
      assert e[..6] == "&#039;" && e[6..] == t;
    }
  }

  /** Escaping loses nothing: decoding the escaped text gives the text back. */
  lemma {:induction false} EscapeRoundTrip(s: string)
    ensures Unescape(Escape(s)) == s
  {
    if s != [] {
      UnescapeChar(s[0], Escape(s[1..]));
      EscapeRoundTrip(s[1..]);
    }
  }

  // ---------------------------------------------------- leaves and ctype_print

  /** ctype_print on one character in the C locale. */
  predicate IsPrint(c: char)
  {
    ' ' <= c <= '~'
  }

  /** ctype_print($s): false for the empty string. */
  predicate CtypePrint(s: string)
  {
    |s| > 0 && forall i :: 0 <= i < |s| ==> IsPrint(s[i])
  }

  /** str_replace(["\n", "\r"], "", $s) */
  function StripNewlines(s: string): (r: string)
    ensures |r| <= |s|
    ensures forall i :: 0 <= i < |r| ==> r[i] != '\n' && r[i] != '\r'
    ensures (forall i :: 0 <= i < |s| ==> s[i] != '\n' && s[i] != '\r') ==> r == s
    ensures |s| == 1 ==> r == if s[0] == '\n' || s[0] == '\r' then [] else s
  {
    if s == [] then []
    else (if s[0] == '\n' || s[0] == '\r' then [] else [s[0]]) + StripNewlines(s[1..])
  }

  /** Stripping works character by character: together with the one-character
      case it keeps every other character, in order. */
  lemma {:induction false} StripNewlinesConcat(a: string, b: string)
    ensures StripNewlines(a + b) == StripNewlines(a) + StripNewlines(b)
  {
    if a == [] {
      assert a + b == b;
    } else {
      assert (a + b)[1..] == a[1..] + b;
      StripNewlinesConcat(a[1..], b);
    }
  }

  /** (string) $v for a scalar; floats are not part of this model. */
  function ScalarText(v: Value): Option<string>
  {
    match v
    case Bool(b) => Some(if b then "1" else "")
    case Int(i) => Some(IntToDecimal(i))
    case Str(s) => Some(s)
    case _ => None
  }

  /** `is_scalar($v) && ctype_print(str_replace(["\n","\r"], "", (string) $v))` */
  predicate PrintableScalar(v: Value)
  {
    ScalarText(v).Some? && CtypePrint(StripNewlines(ScalarText(v).value))
  }

  /** nl2br: "<br />" before each of "\r\n", "\n\r", "\n", "\r". */
  function Nl2Br(s: string): string
    decreases |s|
  {
    if s == [] then []
    else if |s| >= 2 && ((s[0] == '\r' && s[1] == '\n') || (s[0] == '\n' && s[1] == '\r')) then
      "<br />" + s[..2] + Nl2Br(s[2..])
    else if s[0] == '\n' || s[0] == '\r' then "<br />" + [s[0]] + Nl2Br(s[1..])
    else [s[0]] + Nl2Br(s[1..])
  }

  /** The var_dump fallback for a leaf that is not printable text. */
  function DumpHtml(v: Value, varDump: Value -> string): string
  {
    "(dump) <br><pre>" + Nl2Br(Escape(varDump(v))) + "</pre>"
  }

  /** The non-composite branch of _data_to_html. The two quotes mark the
      empty string and nothing else, and printable text is rendered without
      any tag or attribute delimiter. */
  function LeafHtml(v: Value, varDump: Value -> string): (r: string)
    ensures r == "''" <==> v == Str("")
    ensures v != Str("") && PrintableScalar(v) ==>
      forall i :: 0 <= i < |r| ==> r[i] != '<' && r[i] != '>' && r[i] != '"' && r[i] != '\''
  {
    if v == Str("") then "''"
    else if PrintableScalar(v) then
      var e := Escape(ScalarText(v).value);
      assert |e| == 0 || e[0] != '\'';
      e
    else
      var d := DumpHtml(v, varDump);
      assert d[0] == '(';
      d
  }

  lemma DecimalIsPlain(i: int)
    ensures |IntToDecimal(i)| > 0
    ensures forall k :: 0 <= k < |IntToDecimal(i)| ==> IsDigit(IntToDecimal(i)[k]) || IntToDecimal(i)[k] == '-'
  {
    var n := if i < 0 then -i else i;
    var ds := NatToDecimal(n);
    assert IsCanonicalNat(ds);
    if i < 0 {
      var d := IntToDecimal(i);
      assert d == "-" + ds;
      assert forall k :: 1 <= k < |d| ==> d[k] == ds[k - 1];
    }
  }

  /** How a leaf renders: the empty string as '', true as 1, and false and
      null (whose text is not printable) through the dump fallback. */
  lemma LeafConstants(v: Value, varDump: Value -> string)
    ensures v == Str("") ==> LeafHtml(v, varDump) == "''"
    ensures v == Bool(true) ==> LeafHtml(v, varDump) == "1"
    ensures v == Bool(false) || v == Null ==> LeafHtml(v, varDump) == DumpHtml(v, varDump)
  {
    if v == Bool(true) {
      assert StripNewlines("1") == "1";
    } else if v == Bool(false) {
      assert StripNewlines("") == "";
    }
  }

  /** An integer leaf renders as its decimal text. */
  lemma LeafInt(i: int, varDump: Value -> string)
    ensures LeafHtml(Int(i), varDump) == IntToDecimal(i)
  {
    DecimalIsPlain(i);
    var d := IntToDecimal(i);
    assert StripNewlines(d) == d;
    assert CtypePrint(d);
  }

  /** A non-empty string leaf renders escaped when it is printable once its
      line breaks are removed, and through the dump fallback otherwise. */
  lemma LeafStr(s: string, varDump: Value -> string)
    requires s != ""
    ensures CtypePrint(StripNewlines(s)) ==> LeafHtml(Str(s), varDump) == Escape(s)
    ensures !CtypePrint(StripNewlines(s)) ==> LeafHtml(Str(s), varDump) == DumpHtml(Str(s), varDump)
  {
  }

  // ------------------------------------------------------------ composites

  /** _get_html_meta_value: "object" for stdClass, the class name for other
      objects, gettype otherwise; all escaped. */
  function MetaValue(v: Value): (r: string)
    ensures forall i :: 0 <= i < |r| ==> r[i] != '<' && r[i] != '>' && r[i] != '"' && r[i] != '\''
    ensures v.Obj? && v.className == "stdClass" ==> r == "object"
    ensures v.Obj? && v.className != "stdClass" ==> r == Escape(v.className) && Unescape(r) == v.className
    ensures !v.Obj? ==> r == GetType(v)
  {
    PlainTypeNames(v);
    if !v.Obj? then Escape(GetType(v))
    else if v.className == "stdClass" then "object"
    else EscapeRoundTrip(v.className); Escape(v.className)
  }

  /** The names gettype gives hold no character htmlspecialchars rewrites. */
  lemma PlainTypeNames(v: Value)
    ensures Escape(GetType(v)) == GetType(v)
  {
    var t := GetType(v);
    assert forall i :: 0 <= i < |t| ==> 'a' <= t[i] <= 'z' || 'A' <= t[i] <= 'Z';
  }

  function Spaces(n: nat): (r: string)
    ensures |r| == n && forall i :: 0 <= i < n ==> r[i] == ' '
  {
    if n == 0 then "" else Spaces(n - 1) + " "
  }

  /** _ident_html($level, $size): size * level spaces. */
  function Indent(level: nat, size: nat): (r: string)
    ensures |r| == size * level && forall i :: 0 <= i < |r| ==> r[i] == ' '
  {
    Spaces(size * level)
  }

  /** The indent size _data_to_html always uses. */
  const IndentSize: nat := 3

  /** The key as htmlspecialchars sees it. */
  function KeyText(k: Key): string
  {
    match k
    case IntKey(i) => IntToDecimal(i)
    case StrKey(s) => s
  }

  /** `sprintf("%d", $key) != $key`: true exactly for the string keys
      (numeric-looking string keys are not part of this model). */
  predicate ShowsKey(k: Key)
  {
    k.StrKey?
  }

  /** The data-type (and data-boolean-value) attributes of an item's value
      span: gettype's name for a scalar, with the truth value for a boolean,
      "null" for null, and nothing for an array or object. */
  function ValueTypeAttr(v: Value): (r: string)
    ensures r == "" <==> v.IsComposite()
    ensures v.Null? ==> r == "data-type=\"null\""
    ensures v.Int? ==> r == "data-type=\"integer\""
    ensures v.Str? ==> r == "data-type=\"string\""
    ensures v.Bool? && v.b ==> r == "data-type=\"boolean\" data-boolean-value=\"true\""
    ensures v.Bool? && !v.b ==> r == "data-type=\"boolean\" data-boolean-value=\"false\""
  {
    match v
    case Null => "data-type=\"null\""
    case Bool(b) =>
      if b then "data-type=\"boolean\" data-boolean-value=\"true\""
      else "data-type=\"boolean\" data-boolean-value=\"false\""
    case Int(_) => "data-type=\"integer\""
    case Str(_) => "data-type=\"string\""
    case _ => ""
  }

  /** _data_to_html($v, $p, $c, $level) with the default indent size: it
      emits exactly the printed tree of its input. */
  function DataToHtml(v: Value, p: string, c: string, level: nat, varDump: Value -> string): (r: string)
    ensures r == Print(Shape(v, varDump), p, c, level)
    decreases v, 1
  {
    if v.IsComposite() then Container(p, level, MetaValue(v), ItemsHtml(v, 0, p, c, level, varDump))
    else LeafHtml(v, varDump)
  }

  /** One `c` element of the foreach: the data-index, data-key and data-role
      attributes, the visible key (when there is one), the value span with its
      type attributes and the rendered value, and the closing comment. */
  function ItemLine(c: string, level: nat, index: nat, key: string, shownKey: Option<string>,
                    valueType: string, body: string): string
  {
    ItemOpen(c, level, index, key) + ItemContent(c, key, shownKey, valueType, body)
  }

  /** What follows an item's opening tag: the key label, the value span and
      the closing tag with its comment. */
  function ItemContent(c: string, key: string, shownKey: Option<string>, valueType: string, body: string): string
  {
    (match shownKey
     case Some(l) => "<span data-role=\"item-key\">" + l + "</span>" + ":&nbsp;"
     case None => "&nbsp;")
      + "<span data-role=\"item-value\" " + valueType + ">"
      + body
      + "</span></" + c + "><!--/data-item: (" + key + ")-->\n"
  }

  /** The opening tag of one `c` element, one level deeper than its container. */
  function ItemOpen(c: string, level: nat, index: nat, key: string): string
  {
    Indent(level + 1, IndentSize) + "<" + c + " " + "data-index=\"" + NatToDecimal(index) + "\" "
      + "data-key=\"" + key + "\" data-role=\"item\">"
  }

  /** The `p` element around the items of a composite, typed by dataType. */
  function Container(p: string, level: nat, dataType: string, items: string): string
  {
    ContainerOpen(p, level, dataType) + items + ContainerClose(p, level)
  }

  function ContainerOpen(p: string, level: nat, dataType: string): string
  {
    Indent(level, IndentSize) + "<" + p + " data-type=\"" + dataType + "\">\n"
  }

  function ContainerClose(p: string, level: nat): string
  {
    Indent(level, IndentSize) + "</" + p + ">\n"
  }

  /** The visible key of an item: the escaped key for string keys only. */
  function ShownKey(k: Key): Option<string>
  {
    if ShowsKey(k) then Some(Escape(KeyText(k))) else None
  }

  /** The foreach of _data_to_html from position i on: the printed items
      of the tree from position i on. */
  function ItemsHtml(v: Value, i: nat, p: string, c: string, level: nat, varDump: Value -> string): (r: string)
    requires v.IsComposite() && i <= |Children(v)|
    ensures Shape(v, varDump).Tree? && |Shape(v, varDump).items| == |Children(v)|
    ensures r == PrintItems(Shape(v, varDump), i, p, c, level)
    decreases v, 0, |Children(v)| - i
  {
    if i == |Children(v)| then ""
    else
      var key := Children(v)[i].0;
      var child := Children(v)[i].1;
      assert child < v by {
        assert Children(v)[i] in Children(v);
      }
      assert Shape(v, varDump).items[i] == ItemShape(v, i, varDump);
      ItemLine(c, level, i, Escape(KeyText(key)), ShownKey(key), ValueTypeAttr(child),
               DataToHtml(child, p, c, level + 1, varDump))
        + ItemsHtml(v, i + 1, p, c, level, varDump)
  }

  /** _serialize_html: the printed tree of the value as `ul` containers with
      `li` items, from indent level 0. */
  function SerializeHtml(v: Value, varDump: Value -> string): (r: string)
    ensures r == Print(Shape(v, varDump), "ul", "li", 0)
  {
    DataToHtml(v, "ul", "li", 0, varDump)
  }

  // ------------------------------------------------ the structure rendered

  /** The annotated tree the serializer emits: a typed container node with
      item nodes, or a rendered leaf. */
  datatype Markup = Tree(dataType: string, items: seq<Item>) | Text(html: string)

  /** An item node: its position, its key attribute, the visible key label
      (none for integer keys), the value's type attributes and the value. */
  datatype Item = Item(index: nat, key: string, shownKey: Option<string>, valueType: string, value: Markup)

  /** The tree a value should render as. */
  function Shape(v: Value, varDump: Value -> string): Markup
    decreases v, 1
  {
    if v.IsComposite() then
      Tree(MetaValue(v), seq(|Children(v)|, j requires 0 <= j < |Children(v)| => ItemShape(v, j, varDump)))
    else Text(LeafHtml(v, varDump))
  }

  function ItemShape(v: Value, j: nat, varDump: Value -> string): Item
    requires v.IsComposite() && j < |Children(v)|
    decreases v, 0
  {
    var key := Children(v)[j].0;
    var child := Children(v)[j].1;
    assert child < v by {
      assert Children(v)[j] in Children(v);
    }
    Item(j, Escape(KeyText(key)), ShownKey(key), ValueTypeAttr(child), Shape(child, varDump))
  }

  /** Prints a tree as nested `p` elements with `c` items, indented by level. */
  function Print(m: Markup, p: string, c: string, level: nat): string
    decreases m, 1
  {
    match m
    case Text(h) => h
    case Tree(dt, items) => Container(p, level, dt, PrintItems(m, 0, p, c, level))
  }

  function PrintItems(m: Markup, j: nat, p: string, c: string, level: nat): string
    requires m.Tree? && j <= |m.items|
    decreases m, 0, |m.items| - j
  {
    if j == |m.items| then ""
    else
      var it := m.items[j];
      assert it.value < m by {
        assert it in m.items;
      }
      ItemLine(c, level, it.index, it.key, it.shownKey, it.valueType, Print(it.value, p, c, level + 1))
        + PrintItems(m, j + 1, p, c, level)
  }

  /** `a` is a final segment of `b`. */
  predicate IsSuffix(a: string, b: string)
  {
    |a| <= |b| && b[|b| - |a|..] == a
  }

  /** How a tree is printed: its container's opening tag comes first and its
      closing tag last; the text of the items from j on opens with item j's
      tag, carrying its data-index and data-key, and ends with the strictly
      shorter text of the items from j + 1 on. So every item contributes its
      own `c` element, in order, and nothing follows the last one but the
      closing tag. */
  lemma PrintedTree(m: Markup, p: string, c: string, level: nat)
    requires m.Tree?
    ensures ContainerOpen(p, level, m.dataType) <= Print(m, p, c, level)
    ensures IsSuffix(ContainerClose(p, level), Print(m, p, c, level))
    ensures PrintItems(m, |m.items|, p, c, level) == ""
    ensures forall j :: 0 <= j < |m.items| ==>
      && ItemOpen(c, level, m.items[j].index, m.items[j].key) <= PrintItems(m, j, p, c, level)
      && IsSuffix(PrintItems(m, j + 1, p, c, level), PrintItems(m, j, p, c, level))
      && |PrintItems(m, j + 1, p, c, level)| < |PrintItems(m, j, p, c, level)|
  {
    var open, items, close := ContainerOpen(p, level, m.dataType), PrintItems(m, 0, p, c, level), ContainerClose(p, level);
    assert Print(m, p, c, level) == open + items + close;
    PrefixOfConcat(open, items + close);
    assert open + items + close == open + (items + close);
    SuffixOfConcat(open + items, close);
    forall j | 0 <= j < |m.items| {
      PrintedItem(m, j, p, c, level);
    }
  }

  /** Item j's text opens with its tag and is followed by the later items. */
  lemma PrintedItem(m: Markup, j: nat, p: string, c: string, level: nat)
    requires m.Tree? && j < |m.items|
    ensures ItemOpen(c, level, m.items[j].index, m.items[j].key) <= PrintItems(m, j, p, c, level)
    ensures IsSuffix(PrintItems(m, j + 1, p, c, level), PrintItems(m, j, p, c, level))
    ensures |PrintItems(m, j + 1, p, c, level)| < |PrintItems(m, j, p, c, level)|
  {
    var it := m.items[j];
    var tag := ItemOpen(c, level, it.index, it.key);
    var tail := ItemContent(c, it.key, it.shownKey, it.valueType, Print(it.value, p, c, level + 1));
    var line := tag + tail;
    var rest := PrintItems(m, j + 1, p, c, level);
    assert PrintItems(m, j, p, c, level) == line + rest;
    assert line + rest == tag + (tail + rest);
    PrefixOfConcat(tag, tail + rest);
    SuffixOfConcat(line, rest);
  }

  lemma PrefixOfConcat(a: string, b: string)
    ensures a <= a + b
  {
    assert (a + b)[..|a|] == a;
  }

  lemma SuffixOfConcat(a: string, b: string)
    ensures IsSuffix(b, a + b)
  {
    assert (a + b)[|a|..] == b;
  }

  /** What the tree of a value holds: a composite becomes one container typed
      by _get_html_meta_value with one item per child, in iteration order,
      whose index is its 0-based position and whose key label is visible only
      for string keys; a leaf becomes its rendered text. */
  lemma ShapeOf(v: Value, varDump: Value -> string)
    ensures !v.IsComposite() ==> Shape(v, varDump) == Text(LeafHtml(v, varDump))
    ensures v.IsComposite() ==>
      && Shape(v, varDump).Tree?
      && Shape(v, varDump).dataType == MetaValue(v)
      && |Shape(v, varDump).items| == |Children(v)|
    ensures v.IsComposite() ==>
      forall j :: 0 <= j < |Children(v)| ==> Describes(Shape(v, varDump).items[j], j, Children(v)[j], varDump)
  {
  }

  /** Item j of a container shows child (key, x): its index, its escaped key,
      a visible label exactly for string keys, x's type and x's own tree. */
  predicate Describes(it: Item, j: nat, child: (Key, Value), varDump: Value -> string)
  {
    && it.index == j
    && it.key == Escape(KeyText(child.0))
    && (it.shownKey.Some? <==> child.0.StrKey?)
    && it.valueType == ValueTypeAttr(child.1)
    && it.value == Shape(child.1, varDump)
  }

  /** The list [true, false, null]. */
  const ExampleList := Arr([(IntKey(0), Bool(true)), (IntKey(1), Bool(false)), (IntKey(2), Null)])

  /** The mapping {"a": 1, "b": [true, false, null]}. */
  const ExampleMap := Arr([(StrKey("a"), Int(1)), (StrKey("b"), ExampleList)])

  /** The rendering of [true, false, null]: an array container with three
      positional items whose keys are not shown, typed boolean true, boolean
      false and null. */
  lemma ExampleListShape(varDump: Value -> string)
    ensures Shape(ExampleList, varDump).Tree?
    ensures Shape(ExampleList, varDump).dataType == "array"
    ensures |Shape(ExampleList, varDump).items| == 3
    ensures Shape(ExampleList, varDump).items[0]
      == Item(0, "0", None, "data-type=\"boolean\" data-boolean-value=\"true\"", Text("1"))
    ensures Shape(ExampleList, varDump).items[1]
      == Item(1, "1", None, "data-type=\"boolean\" data-boolean-value=\"false\"", Text(DumpHtml(Bool(false), varDump)))
    ensures Shape(ExampleList, varDump).items[2]
      == Item(2, "2", None, "data-type=\"null\"", Text(DumpHtml(Null, varDump)))
  {
    assert Escape("array") == "array";
    PositionalItem(ExampleList, 0, Bool(true), varDump);
    PositionalItem(ExampleList, 1, Bool(false), varDump);
    PositionalItem(ExampleList, 2, Null, varDump);
    assert NatToDecimal(0) == "0" && NatToDecimal(1) == "1" && NatToDecimal(2) == "2";
    LeafConstants(Bool(true), varDump);
    LeafConstants(Bool(false), varDump);
    LeafConstants(Null, varDump);
  }

  /** Item j of an array or object whose j-th key is the integer j (a list
      built by `$a[] = x`, say) is labelled by the decimal text of j, shows no
      key and carries the child's type attributes and tree. */
  lemma PositionalItem(v: Value, j: nat, x: Value, varDump: Value -> string)
    requires v.IsComposite() && j < |Children(v)| && Children(v)[j] == (IntKey(j), x)
    ensures Shape(v, varDump).Tree? && |Shape(v, varDump).items| == |Children(v)|
    ensures Shape(v, varDump).items[j] == Item(j, NatToDecimal(j), None, ValueTypeAttr(x), Shape(x, varDump))
  {
    ShapeOf(v, varDump);
    IntKeyText(j);
  }

  /** An integer key, negative ones included, is labelled by its plain
      decimal text. */
  lemma IntKeyText(i: int)
    ensures Escape(KeyText(IntKey(i))) == IntToDecimal(i)
  {
    DecimalIsPlain(i);
  }

  /** The rendering of {"a": 1, "b": [true, false, null]}: an array
      container with the visibly keyed items a (an integer rendered 1) and b
      (the list above). */
  lemma ExampleShape(varDump: Value -> string)
    ensures Shape(ExampleMap, varDump).Tree?
    ensures Shape(ExampleMap, varDump).dataType == "array"
    ensures |Shape(ExampleMap, varDump).items| == 2
    ensures Shape(ExampleMap, varDump).items[0] == Item(0, "a", Some("a"), "data-type=\"integer\"", Text("1"))
    ensures Shape(ExampleMap, varDump).items[1] == Item(1, "b", Some("b"), "", Shape(ExampleList, varDump))
  {
    ShapeOf(ExampleMap, varDump);
    LeafInt(1, varDump);
    assert IntToDecimal(1) == "1";
    assert Escape("array") == "array";
    assert Escape("a") == "a";
    assert Escape("b") == "b";
  }
}
