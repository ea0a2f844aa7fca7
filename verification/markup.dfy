/** The HTML building blocks of the report generator: `appendTag` and its
    cell shorthands, `appendLineSpaces`, and the rendering of a document
    given as a sequence of fragments. */
module Markup {
  import opened Outcomes
  import opened Text

  /** A piece of the HTML document: literal text appended as is, or an
      element written by `appendTag(sb, tag, props, contents)`. */
  datatype Fragment = Raw(text: string) | Elem(tag: string, props: string, contents: string)

  /** The element `appendLineSpaces` repeats: `appendTag(sb, "br", "")`. */
  const Br: Fragment := Elem("br", "", "")

  function OpenTag(tag: string, props: string): string {
    "<" + tag + " " + props + ">"
  }

  function CloseTag(tag: string): string {
    "</" + tag + ">"
  }

  /** Reads back the contents of a tag written with the given name and
      properties, if `s` is one. */
  function TagContents(s: string, tag: string, props: string): Option<string> {
    var open := OpenTag(tag, props);
    var close := CloseTag(tag);
    if |open| + |close| <= |s| && IsPrefix(open, s) && IsSuffix(close, s)
    then Some(s[|open|..|s| - |close|])
    else None
  }

  /** The text `appendTag` writes. Properties are always preceded by a space,
      so the two-argument form with empty properties gives `<tag >`. */
  function Tag(tag: string, props: string, contents: string): string {
    OpenTag(tag, props) + contents + CloseTag(tag)
  }

  /** A written tag can be read back: its contents are recovered exactly,
      whatever characters they hold. */
  lemma TagRoundTrip(tag: string, props: string, contents: string)
    ensures TagContents(Tag(tag, props, contents), tag, props) == Some(contents)
    ensures |Tag(tag, props, contents)| == 2 * |tag| + |props| + |contents| + 6
  {
    var s := Tag(tag, props, contents);
    assert s[..|OpenTag(tag, props)|] == OpenTag(tag, props);
    assert s[|s| - |CloseTag(tag)|..] == CloseTag(tag);
    assert s[|OpenTag(tag, props)|..|s| - |CloseTag(tag)|] == contents;
  }

  /** `appendTag(sb, tag, props, contents)` on a builder holding `sb`. */
  function AppendTag(sb: string, tag: string, props: string, contents: string): (r: string)
    ensures IsPrefix(sb, r)
    ensures TagContents(r[|sb|..], tag, props) == Some(contents)
  {
    var r := sb + Tag(tag, props, contents);
    assert r[|sb|..] == Tag(tag, props, contents);
    TagRoundTrip(tag, props, contents);
    r
  }

  /** `appendDataCell`. */
  function DataCell(props: string, contents: string): (f: Fragment)
    ensures f.Elem? && f.tag == "td"
  {
    Elem("td", props, contents)
  }

  /** `appendHeaderCell`. */
  function HeaderCell(props: string, contents: string): (f: Fragment)
    ensures f.Elem? && f.tag == "th"
  {
    Elem("th", props, contents)
  }

  /** The text of a data cell and of a header cell reads back as exactly the
      contents, under the given properties. */
  lemma CellsReadBack(props: string, contents: string)
    ensures TagContents(RenderFragment(DataCell(props, contents)), "td", props) == Some(contents)
    ensures TagContents(RenderFragment(HeaderCell(props, contents)), "th", props) == Some(contents)
  {
    TagRoundTrip("td", props, contents);
    TagRoundTrip("th", props, contents);
  }

  function RenderFragment(f: Fragment): string {
    match f
    case Raw(text) => text
    case Elem(tag, props, contents) => Tag(tag, props, contents)
  }

  /** The text of each fragment, in order. */
  function Texts(fs: seq<Fragment>): (ts: seq<string>)
    ensures |ts| == |fs|
    ensures forall i :: 0 <= i < |fs| ==> ts[i] == RenderFragment(fs[i])
  {
    seq(|fs|, i requires 0 <= i < |fs| => RenderFragment(fs[i]))
  }

  /** The string a builder holds after appending the fragments in order. */
  function Render(fs: seq<Fragment>): string {
    Concat(Texts(fs))
  }

  lemma RenderAppend(a: seq<Fragment>, b: seq<Fragment>)
    ensures Render(a + b) == Render(a) + Render(b)
  {
    assert Texts(a + b) == Texts(a) + Texts(b);
    ConcatAppend(Texts(a), Texts(b));
  }

  /** Number of elements with the given tag name. */
  function CountTag(fs: seq<Fragment>, tag: string): nat {
    if |fs| == 0 then 0
    else CountTag(fs[..|fs| - 1], tag) + (if fs[|fs| - 1].Elem? && fs[|fs| - 1].tag == tag then 1 else 0)
  }

  lemma {:induction false} CountTagAppend(a: seq<Fragment>, b: seq<Fragment>, tag: string)
    ensures CountTag(a + b, tag) == CountTag(a, tag) + CountTag(b, tag)
    decreases |b|
  {
    if |b| == 0 {
      assert a + b == a;
    } else {
      assert (a + b)[..|a + b| - 1] == a + b[..|b| - 1];
      CountTagAppend(a, b[..|b| - 1], tag);
    }
  }

  /** Counting a tag in a sequence made only of that tag, or free of it. */
  lemma {:induction false} CountTagUniform(fs: seq<Fragment>, tag: string)
    ensures (forall i :: 0 <= i < |fs| ==> fs[i].Elem? && fs[i].tag == tag) ==> CountTag(fs, tag) == |fs|
    ensures (forall i :: 0 <= i < |fs| ==> !(fs[i].Elem? && fs[i].tag == tag)) ==> CountTag(fs, tag) == 0
  {
    if |fs| > 0 {
      CountTagUniform(fs[..|fs| - 1], tag);
    }
  }

  function Breaks(k: nat): (fs: seq<Fragment>)
    ensures |fs| == k
    ensures forall i :: 0 <= i < k ==> fs[i] == Br
  {
    seq(k, _ => Br)
  }

  /** Appending one fragment appends its text. */
  lemma RenderSnoc(fs: seq<Fragment>, f: Fragment)
    ensures Render(fs + [f]) == Render(fs) + RenderFragment(f)
  {
    RenderAppend(fs, [f]);
    assert Texts([f]) == [RenderFragment(f)];
    assert Concat([RenderFragment(f)]) == Concat([]) + RenderFragment(f);
  }

  /** One more break renders as one more `<br ></br>`. */
  lemma BreaksStep(k: nat)
    ensures Render(Breaks(k + 1)) == Render(Breaks(k)) + RenderFragment(Br)
  {
    assert Breaks(k + 1) == Breaks(k) + [Br];
    RenderSnoc(Breaks(k), Br);
  }

  lemma {:induction false} BreaksLength(k: nat)
    ensures |Render(Breaks(k))| == 10 * k
  {
    if k > 0 {
      BreaksLength(k - 1);
      BreaksStep(k - 1);
      assert |RenderFragment(Br)| == 10;
    } else {
      assert Texts(Breaks(0)) == [];
    }
  }

  /** What `appendLineSpaces(sb, n)` appends: one line break fewer than
      asked for, and none at all when `n` is at most 1. */
  function LineSpaces(n: int): (fs: seq<Fragment>)
    ensures |fs| == if n > 1 then n - 1 else 0
    ensures forall i :: 0 <= i < |fs| ==> fs[i] == Br
  {
    Breaks(if n > 1 then n - 1 else 0)
  }

  /** `t` written `k` times. */
  function Repeat(t: string, k: nat): (r: string)
  {
    if k == 0 then "" else Repeat(t, k - 1) + t
  }

  /** The breaks render as the break text repeated once per break. */
  lemma {:induction false} BreaksRepeat(k: nat)
    ensures Render(Breaks(k)) == Repeat(RenderFragment(Br), k)
  {
    if k > 0 {
      BreaksRepeat(k - 1);
      BreaksStep(k - 1);
    } else {
      assert Texts(Breaks(0)) == [];
    }
  }

  /** The `for (i = 1; i < n; i++)` loop of `appendLineSpaces`. */
  method AppendLineSpaces(sb: string, n: int) returns (r: string)
    ensures r == sb + Render(LineSpaces(n))
  {
    var br := RenderFragment(Br);
    r := sb;
    var i := 1;
    while i < n
      invariant 1 <= i <= if n > 1 then n else 1
      invariant r == sb + Repeat(br, i - 1)
    {
      r := r + br;
      i := i + 1;
    }
    BreaksRepeat(i - 1);
    assert LineSpaces(n) == Breaks(i - 1);
  }
}
