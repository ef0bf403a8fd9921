/**
 * The JSX runtime of src/jsx-strings.ts: `jsx(tag, props)` renders an
 * element straight to an HTML string. Parts are pushed onto one list and
 * joined at the end; children are flattened in order, `null`, `undefined`
 * and `false` are skipped, and nothing is escaped.
 */
module JsxStrings {
  import opened Strings

  /** Tags that render as an opening tag only (`UNARY`). */
  const Unary: set<string> := {"img", "br", "hr", "input", "meta", "link"}

  /** The fragment tag `<>…</>` compiles to. */
  const Fragment: string := ""

  /** A child value: text, a number, `true`, `false`, `null`/`undefined`, or a nested array. */
  datatype Child = Str(s: string) | Num(n: int) | True | False | Nullish | Arr(items: seq<Child>)

  /** An attribute value: a boolean, a string, a number, or `null`/`undefined`. */
  datatype AttrVal = Flag(b: bool) | StrV(s: string) | NumV(n: int) | NullishV

  /** A tag: an intrinsic element name, or a component function called with the attributes and children. */
  datatype Tag = Intrinsic(name: string) | Component(render: (seq<(string, AttrVal)>, seq<Child>) -> string)

  /** `${n}` for an integer. */
  function IntToString(n: int): (s: string)
    ensures |s| > 0
    ensures n >= 0 ==> s == NatToString(n)
  {
    if n < 0 then "-" + NatToString(-n) else NatToString(n)
  }

  /** `parts.join('')`. */
  function Join(ss: seq<string>): string {
    if ss == [] then "" else ss[0] + Join(ss[1..])
  }

  lemma {:induction false} JoinConcat(a: seq<string>, b: seq<string>)
    ensures Join(a + b) == Join(a) + Join(b)
  {
    if a == [] {
      assert a + b == b;
    } else {
      assert (a + b)[0] == a[0] && (a + b)[1..] == a[1..] + b;
      JoinConcat(a[1..], b);
      calc {
        Join(a + b);
        a[0] + Join(a[1..] + b);
        a[0] + (Join(a[1..]) + Join(b));
        (a[0] + Join(a[1..])) + Join(b);
      }
    }
  }

  /** Joining a short literal list. */
  lemma JoinShort(a: string, b: string, c: string, d: string, e: string)
    ensures Join([a]) == a
    ensures Join([a, b]) == a + b
    ensures Join([a, b, c]) == a + b + c
    ensures Join([a, b, c, d, e]) == a + b + c + d + e
  {
    assert Join([e]) == e by {
      assert [e][1..] == [];
      assert e + "" == e;
    }
    assert Join([a]) == a by {
      assert [a][1..] == [];
      assert a + "" == a;
    }
    assert Join([b]) == b by {
      assert [b][1..] == [];
      assert b + "" == b;
    }
    assert [a, b][1..] == [b];
    assert Join([d, e]) == d + e by {
      assert [d, e][1..] == [e];
    }
    assert Join([c, d, e]) == c + d + e by {
      assert [c, d, e][1..] == [d, e];
    }
    assert Join([b, c, d, e]) == b + c + d + e by {
      assert [b, c, d, e][1..] == [c, d, e];
    }
    assert [a, b, c, d, e][1..] == [b, c, d, e];
    assert Join([b, c]) == b + c by {
      assert [b, c][1..] == [c];
      assert Join([c]) == c by {
        assert [c][1..] == [];
        assert c + "" == c;
      }
    }
    assert [a, b, c][1..] == [b, c];
  }

  /**
   * The `children` prop as `jsx` normalises it: absent (`null`/`undefined`)
   * becomes no children, an array is taken as is, and any other value is
   * the only child.
   */
  function Kids(children: Child): (r: seq<Child>)
    ensures children == Nullish ==> r == []
    ensures children.Arr? ==> r == children.items
    ensures children != Nullish && !children.Arr? ==> r == [children]
  {
    match children
    case Nullish => []
    case Arr(items) => items
    case _ => [children]
  }

  /** What `pushChildren` pushes for a child that is not an array: the value itself, or nothing when skipped. */
  function Leaf(c: Child): seq<string>
    requires !c.Arr?
  {
    match c
    case Str(s) => [s]
    case Num(n) => [IntToString(n)]
    case True => ["true"]
    case False => []
    case Nullish => []
  }

  /** Everything `pushChildren` pushes: leaves in order, nested arrays flattened in place. */
  function Flatten(children: seq<Child>): (parts: seq<string>)
    decreases children
  {
    if children == [] then []
    else
      var c := children[0];
      (if c.Arr? then Flatten(c.items) else Leaf(c)) + Flatten(children[1..])
  }

  /** Flattening is in order: it distributes over concatenation. */
  lemma {:induction false} FlattenConcat(a: seq<Child>, b: seq<Child>)
    ensures Flatten(a + b) == Flatten(a) + Flatten(b)
  {
    if a == [] {
      assert a + b == b;
    } else {
      assert (a + b)[0] == a[0] && (a + b)[1..] == a[1..] + b;
      FlattenConcat(a[1..], b);
    }
  }

  /**
   * Normalising the `children` prop renders the same parts as pushing the
   * prop itself as one child: a lone child and a one-element array agree,
   * and absent children render nothing either way.
   */
  lemma KidsFlatten(children: Child)
    ensures Flatten(Kids(children)) == Flatten([children])
  {
    assert [children][1..] == [];
    if children.Arr? {
      assert Flatten(children.items) + [] == Flatten(children.items);
    }
  }

  /** `null`, `undefined` and `false` children push nothing. */
  lemma {:induction false} FlattenSkips(children: seq<Child>)
    requires forall i :: 0 <= i < |children| ==> children[i] in {False, Nullish}
    ensures Flatten(children) == []
  {
    if children != [] {
      FlattenSkips(children[1..]);
    }
  }

  /** A nested array contributes its own flattening, in place. */
  lemma FlattenNested(before: seq<Child>, items: seq<Child>, after: seq<Child>)
    ensures Flatten(before + [Arr(items)] + after) == Flatten(before) + Flatten(items) + Flatten(after)
  {
    FlattenConcat(before + [Arr(items)], after);
    FlattenConcat(before, [Arr(items)]);
  }

  /** Text is pushed verbatim: no escaping; `0` is rendered; `false` is not. */
  lemma FlattenExample()
    ensures Flatten([Str("<b>"), Nullish, Arr([Str("x"), False, Num(0)]), True]) == ["<b>", "x", "0", "true"]
  {
    var inner := [Str("x"), False, Num(0)];
    assert Flatten(inner) == ["x", "0"] by {
      assert inner[1..] == [False, Num(0)];
      assert inner[1..][1..] == [Num(0)];
      assert Flatten([Num(0)]) == ["0"] by {
        assert NatToString(0) == "0";
      }
    }
    var all := [Str("<b>"), Nullish, Arr(inner), True];
    assert all[1..] == [Nullish, Arr(inner), True];
    assert all[1..][1..] == [Arr(inner), True];
    assert all[1..][1..][1..] == [True];
  }

  /** JavaScript truthiness of an attribute value. */
  predicate Truthy(v: AttrVal) {
    match v
    case Flag(b) => b
    case StrV(s) => s != ""
    case NumV(n) => n != 0
    case NullishV => false
  }

  /** The text a truthy value is pushed as. */
  function ValueText(v: AttrVal): string {
    match v
    case Flag(b) => if b then "true" else "false"
    case StrV(s) => s
    case NumV(n) => IntToString(n)
    case NullishV => "undefined"
  }

  /** The parts one attribute pushes. */
  function AttrPart(k: string, v: AttrVal): (ps: seq<string>)
    ensures v == Flag(true) || v == StrV("") ==> Join(ps) == " " + k
    ensures v != Flag(true) && v != StrV("") && Truthy(v) ==> Join(ps) == " " + k + "=\"" + ValueText(v) + "\""
    ensures !Truthy(v) && v != StrV("") ==> ps == []
  {
    JoinShort(" ", k, "=\"", ValueText(v), "\"");
    if v == Flag(true) || v == StrV("") then [" ", k]
    else if Truthy(v) then [" ", k, "=\"", ValueText(v), "\""]
    else []
  }

  /** The parts all attributes push, in their order. */
  function AttrParts(attrs: seq<(string, AttrVal)>): seq<string> {
    if attrs == [] then [] else AttrParts(attrs[..|attrs| - 1]) + AttrPart(attrs[|attrs| - 1].0, attrs[|attrs| - 1].1)
  }

  /** The rendered attribute list. */
  function AttrText(attrs: seq<(string, AttrVal)>): string {
    Join(AttrParts(attrs))
  }

  /** The attributes' parts are pushed in the attributes' order. */
  lemma {:induction false} AttrPartsConcat(a: seq<(string, AttrVal)>, b: seq<(string, AttrVal)>)
    ensures AttrParts(a + b) == AttrParts(a) + AttrParts(b)
    decreases |b|
  {
    if b == [] {
      assert a + b == a;
    } else {
      var b0 := b[..|b| - 1];
      var x := b[|b| - 1];
      var p := AttrPart(x.0, x.1);
      assert (a + b)[..|a + b| - 1] == a + b0 && (a + b)[|a + b| - 1] == x;
      assert AttrParts(a + b) == AttrParts(a + b0) + p;
      assert AttrParts(b) == AttrParts(b0) + p;
      AttrPartsConcat(a, b0);
      ConcatAssoc(AttrParts(a), AttrParts(b0), p);
    }
  }

  /** Attributes render in their order, each on its own. */
  lemma AttrTextConcat(a: seq<(string, AttrVal)>, b: seq<(string, AttrVal)>)
    ensures AttrText(a + b) == AttrText(a) + AttrText(b)
  {
    AttrPartsConcat(a, b);
    JoinConcat(AttrParts(a), AttrParts(b));
  }

  /** `false`, `null`, `undefined` and `0` attributes leave no trace. */
  lemma FalsyAttrOmitted(attrs: seq<(string, AttrVal)>, k: string, v: AttrVal)
    requires !Truthy(v) && v != StrV("")
    ensures AttrText(attrs + [(k, v)]) == AttrText(attrs)
  {
    var all := attrs + [(k, v)];
    assert all[..|all| - 1] == attrs && all[|all| - 1] == (k, v);
    assert AttrParts(all) == AttrParts(attrs) + AttrPart(k, v);
    assert AttrPart(k, v) == [];
    assert AttrParts(all) == AttrParts(attrs);
  }

  /** The `parts` array `jsx` pushes into. */
  class Parts {
    var items: seq<string>

    constructor()
      ensures items == []
    {
      items := [];
    }

    method Push(s: seq<string>)
      modifies this
      ensures items == old(items) + s
    {
      items := items + s;
    }
  }

  /** `pushChildren(children, parts)`. */
  method PushChildren(children: seq<Child>, parts: Parts)
    modifies parts
    ensures parts.items == old(parts.items) + Flatten(children)
    decreases children
  {
    ghost var start := parts.items;
    for i := 0 to |children|
      invariant parts.items == start + Flatten(children[..i])
    {
      var child := children[i];
      PushStep(start, children, i, parts.items);
      if child.Arr? {
        assert child in children;
        PushChildren(child.items, parts);
      } else {
        parts.Push(Leaf(child));
      }
    }
    assert children[..|children|] == children;
  }

  /** What the loop of `pushChildren` has pushed after one more child. */
  lemma PushStep(start: seq<string>, children: seq<Child>, i: nat, items: seq<string>)
    requires i < |children| && items == start + Flatten(children[..i])
    ensures var c := children[i];
            items + (if c.Arr? then Flatten(c.items) else Leaf(c)) == start + Flatten(children[..i + 1])
  {
    var c := children[i];
    var f := Flatten(children[..i]);
    var x := if c.Arr? then Flatten(c.items) else Leaf(c);
    assert children[..i + 1] == children[..i] + [c];
    FlattenSnoc(children[..i], c);
    ConcatAssoc(start, f, x);
  }

  lemma FlattenSnoc(a: seq<Child>, c: Child)
    ensures Flatten(a + [c]) == Flatten(a) + (if c.Arr? then Flatten(c.items) else Leaf(c))
  {
    FlattenConcat(a, [c]);
    assert [c][1..] == [];
  }

  /** The parts of an opening tag, as joined. */
  lemma OpenTagText(name: string, attrs: seq<(string, AttrVal)>)
    ensures Join(["<", name] + AttrParts(attrs) + [">"]) == "<" + name + AttrText(attrs) + ">"
  {
    JoinConcat(["<", name] + AttrParts(attrs), [">"]);
    JoinConcat(["<", name], AttrParts(attrs));
    JoinShort("<", name, "", "", "");
    JoinShort(">", "", "", "", "");
  }

  /** The parts of a full element, as joined. */
  lemma ElementText(open: seq<string>, kids: seq<string>, name: string)
    ensures Join(open + kids + ["</", name, ">"]) == Join(open) + Join(kids) + "</" + name + ">"
  {
    JoinConcat(open + kids, ["</", name, ">"]);
    JoinConcat(open, kids);
    JoinShort("</", name, ">", "", "");
  }

  /** The opening-tag pushes of `jsx`: `<`, the tag, each attribute in order, `>`. */
  method PushOpenTag(name: string, attrs: seq<(string, AttrVal)>, parts: Parts)
    modifies parts
    ensures parts.items == old(parts.items) + ["<", name] + AttrParts(attrs) + [">"]
  {
    ghost var start := parts.items;
    parts.Push(["<", name]);
    for i := 0 to |attrs|
      invariant parts.items == start + ["<", name] + AttrParts(attrs[..i])
    {
      assert attrs[..i + 1][..i] == attrs[..i];
      parts.Push(AttrPart(attrs[i].0, attrs[i].1));
    }
    assert attrs[..|attrs|] == attrs;
    parts.Push([">"]);
  }

  /**
   * `jsx(tag, { children, ...attrs })` (also exported as `jsxs`): a component
   * is called with the attributes and the normalised children; the fragment
   * renders only the flattened children; a unary tag renders its opening
   * tag and drops its children; any other tag wraps its children.
   */
  method Jsx(tag: Tag, attrs: seq<(string, AttrVal)>, children: Child) returns (r: string)
    ensures tag.Component? ==> r == tag.render(attrs, Kids(children))
    ensures tag == Intrinsic(Fragment) ==> r == Join(Flatten(Kids(children)))
    ensures tag.Intrinsic? && tag.name != Fragment && tag.name in Unary ==>
              r == "<" + tag.name + AttrText(attrs) + ">"
    ensures tag.Intrinsic? && tag.name != Fragment && tag.name !in Unary ==>
              r == "<" + tag.name + AttrText(attrs) + ">" + Join(Flatten(Kids(children))) + "</" + tag.name + ">"
  {
    var kids := Kids(children);
    if tag.Component? {
      return tag.render(attrs, kids);
    }
    var name := tag.name;
    var parts := new Parts();
    if name == Fragment {
      PushChildren(kids, parts);
      assert parts.items == Flatten(kids);
      return Join(parts.items);
    }
    PushOpenTag(name, attrs, parts);
    ghost var open := parts.items;
    assert open == ["<", name] + AttrParts(attrs) + [">"];
    OpenTagText(name, attrs);
    if name !in Unary {
      PushChildren(kids, parts);
      parts.Push(["</", name, ">"]);
      ElementText(open, Flatten(kids), name);
    }
    r := Join(parts.items);
  }
}
