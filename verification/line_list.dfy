/** `populateListInAStringBuffer`: the rendering of a class's covered or
    uncovered line numbers inside one cell of the HTML coverage table. */
module LineList {
  import opened Outcomes
  import opened Text
  import opened Inputs

  predicate NoNewline(s: string) {
    forall k :: 0 <= k < |s| ==> s[k] != '\n'
  }

  /** The shape of every value's text: at least one character, no line
      break, and a final comma. */
  predicate ValueTextsShaped(ts: seq<string>) {
    forall k :: 0 <= k < |ts| ==> |ts[k]| >= 2 && NoNewline(ts[k]) && ts[k][|ts[k]| - 1] == ','
  }

  /** The text the loop appends for each value before any line break: the
      value and its comma. */
  function ValueTexts(xs: seq<int>): (ts: seq<string>)
    ensures |ts| == |xs|
    ensures forall k :: 0 <= k < |xs| ==> ts[k] == IntToString(xs[k]) + ","
  {
    seq(|xs|, k requires 0 <= k < |xs| => IntToString(xs[k]) + ",")
  }

  lemma ValueTextsAreShaped(xs: seq<int>)
    ensures ValueTextsShaped(ValueTexts(xs))
  {
    var ts := ValueTexts(xs);
    forall k | 0 <= k < |ts|
      ensures |ts[k]| >= 2 && NoNewline(ts[k]) && ts[k][|ts[k]| - 1] == ','
    {
      var d := IntToString(xs[k]);
      assert ts[k] == d + ",";
      assert forall i :: 0 <= i < |d| ==> ts[k][i] == d[i];
    }
  }

  /** What the loop appends for the value at (0-based) position `k`: its
      text, and a newline after every tenth value. */
  function Piece(ts: seq<string>, k: nat): string
    requires k < |ts|
  {
    if Mod10(k + 1) == 0 then ts[k] + "\n" else ts[k]
  }

  /** The buffer after the loop has consumed the first `j` values. */
  function Pieces(ts: seq<string>, j: nat): string
    requires j <= |ts|
  {
    if j == 0 then "" else Pieces(ts, j - 1) + Piece(ts, j - 1)
  }

  lemma {:induction false} PiecesNonEmpty(ts: seq<string>, j: nat)
    requires j <= |ts|
    requires ValueTextsShaped(ts)
    ensures |Pieces(ts, j)| >= 2 * j
  {
    if j > 0 {
      PiecesNonEmpty(ts, j - 1);
    }
  }

  /** The string `populateListInAStringBuffer` returns. A null list renders
      as "-"; otherwise the buffer loses its last character, which makes
      `substring(0, -1)` throw on an empty list. */
  function RenderLineList(values: Option<seq<int>>): (r: Result<string, ReportError>)
    ensures r.Failure? <==> values == Some([])
    ensures r.Failure? ==> r.error == StringIndexOutOfBounds
    ensures values.None? ==> r == Success("-")
  {
    match values
    case None => Success("-")
    case Some(xs) =>
      var buf := Pieces(ValueTexts(xs), |xs|);
      ValueTextsAreShaped(xs);
      PiecesNonEmpty(ValueTexts(xs), |xs|);
      if |buf| == 0 then Failure(StringIndexOutOfBounds) else Success(buf[..|buf| - 1])
  }

  /** The loop of `populateListInAStringBuffer`, with its counter `i` that
      is reset after every tenth value. */
  method PopulateListInAStringBuffer(values: Option<seq<int>>) returns (r: Result<string, ReportError>)
    ensures r == RenderLineList(values)
  {
    if values.None? {
      return Success("-");
    }
    var xs := values.value;
    ghost var ts := ValueTexts(xs);
    var buf := "";
    var i := 0;
    var k := 0;
    while k < |xs|
      invariant 0 <= k <= |xs|
      invariant i == Mod10(k)
      invariant buf == Pieces(ts, k)
    {
      Mod10Step(k);
      i := i + 1;
      var piece := IntToString(xs[k]) + ",";
      assert piece == ts[k];
      if i >= 10 {
        piece := piece + "\n";
        i := 0;
      }
      buf := buf + piece;
      k := k + 1;
    }
    if |buf| == 0 {
      return Failure(StringIndexOutOfBounds);
    }
    r := Success(buf[..|buf| - 1]);
  }

  /** A piece holds a line break exactly when it closes a group of ten. */
  lemma PieceNewlines(ts: seq<string>, k: nat)
    requires k < |ts|
    requires NoNewline(ts[k])
    ensures CountChar('\n', Piece(ts, k)) == if Mod10(k + 1) == 0 then 1 else 0
  {
    AbsentChar('\n', ts[k]);
    if Mod10(k + 1) == 0 {
      CountCharConcat('\n', ts[k], "\n");
    }
  }

  /** Without its line break, a piece is the value's text. */
  lemma PieceText(ts: seq<string>, k: nat)
    requires k < |ts|
    requires NoNewline(ts[k])
    ensures RemoveChar('\n', Piece(ts, k)) == ts[k]
  {
    AbsentChar('\n', ts[k]);
    if Mod10(k + 1) == 0 {
      RemoveCharConcat('\n', ts[k], "\n");
      assert "\n"[..0] == "";
    }
  }

  /** After `j` values the buffer holds one newline per completed group of
      ten. */
  lemma {:induction false} PiecesNewlines(ts: seq<string>, j: nat)
    requires j <= |ts|
    requires ValueTextsShaped(ts)
    ensures CountChar('\n', Pieces(ts, j)) == Div10(j)
  {
    if j > 0 {
      PiecesNewlines(ts, j - 1);
      PieceNewlines(ts, j - 1);
      CountCharConcat('\n', Pieces(ts, j - 1), Piece(ts, j - 1));
      Mod10Step(j - 1);
    }
  }

  /** Apart from its newlines, the buffer after `j` values is their texts
      in input order. */
  lemma {:induction false} PiecesValues(ts: seq<string>, j: nat)
    requires j <= |ts|
    requires ValueTextsShaped(ts)
    ensures RemoveChar('\n', Pieces(ts, j)) == Concat(ts[..j])
  {
    if j > 0 {
      PiecesValues(ts, j - 1);
      PieceText(ts, j - 1);
      RemoveCharConcat('\n', Pieces(ts, j - 1), Piece(ts, j - 1));
      assert ts[..j][..j - 1] == ts[..j - 1];
    } else {
      assert ts[..0] == [];
    }
  }

  /** The last value as it survives in the rendered list: with its comma
      when the count is a multiple of ten (the dropped character was the
      newline), without it otherwise. */
  function LastValue(xs: seq<int>): string
    requires |xs| >= 1
  {
    if Mod10(|xs|) == 0 then IntToString(xs[|xs| - 1]) + "," else IntToString(xs[|xs| - 1])
  }

  /** The same, in terms of the value texts. */
  function LastText(ts: seq<string>): string
    requires |ts| >= 1 && |ts[|ts| - 1]| >= 1
  {
    var t := ts[|ts| - 1];
    if Mod10(|ts|) == 0 then t else t[..|t| - 1]
  }

  lemma LastTextOfValues(xs: seq<int>)
    requires |xs| >= 1
    ensures LastText(ValueTexts(xs)) == LastValue(xs)
  {
    var d := IntToString(xs[|xs| - 1]);
    assert (d + ",")[..|d|] == d;
  }

  /** Dropping the final character of the buffer leaves the first n - 1
      pieces followed by the last value's text. */
  lemma BufferDropLast(ts: seq<string>)
    requires |ts| >= 1
    requires ValueTextsShaped(ts)
    ensures |Pieces(ts, |ts|)| >= 1
    ensures Pieces(ts, |ts|)[..|Pieces(ts, |ts|)| - 1] == Pieces(ts, |ts| - 1) + LastText(ts)
  {
    var n := |ts|;
    var a := Pieces(ts, n - 1);
    var piece := Piece(ts, n - 1);
    assert Pieces(ts, n) == a + piece;
    DropLast(a, piece);
    if Mod10(n) == 0 {
      DropLast(ts[n - 1], "\n");
      assert "\n"[..0] == "";
    }
  }

  /** The last value's text holds no line break. */
  lemma LastTextNoNewline(ts: seq<string>)
    requires |ts| >= 1
    requires ValueTextsShaped(ts)
    ensures NoNewline(LastText(ts))
  {
    var t := ts[|ts| - 1];
    assert NoNewline(t);
    var l := LastText(ts);
    assert forall i :: 0 <= i < |l| ==> l[i] == t[i];
  }

  lemma RenderedValues(ts: seq<string>)
    requires |ts| >= 1
    requires ValueTextsShaped(ts)
    ensures RemoveChar('\n', Pieces(ts, |ts| - 1) + LastText(ts)) == Concat(ts[..|ts| - 1]) + LastText(ts)
  {
    PiecesValues(ts, |ts| - 1);
    LastTextNoNewline(ts);
    RemoveCharConcat('\n', Pieces(ts, |ts| - 1), LastText(ts));
    AbsentChar('\n', LastText(ts));
  }

  /** The rendered list is the buffer of the first n - 1 values followed by
      the last value, the final character of the full buffer being dropped. */
  lemma LastCharacterDropped(xs: seq<int>)
    requires |xs| >= 1
    ensures RenderLineList(Some(xs)).Success?
    ensures RenderLineList(Some(xs)).value == Pieces(ValueTexts(xs), |xs| - 1) + LastText(ValueTexts(xs))
    ensures LastText(ValueTexts(xs)) == LastValue(xs)
  {
    ValueTextsAreShaped(xs);
    BufferDropLast(ValueTexts(xs));
    LastTextOfValues(xs);
  }

  /** A list of n >= 1 values contains (n - 1) / 10 line breaks: ten values
      give none, eleven give exactly one. */
  lemma LineListNewlines(xs: seq<int>)
    requires |xs| >= 1
    ensures RenderLineList(Some(xs)).Success?
    ensures CountChar('\n', RenderLineList(Some(xs)).value) == (|xs| - 1) / 10
  {
    var ts := ValueTexts(xs);
    LastCharacterDropped(xs);
    ValueTextsAreShaped(xs);
    PiecesNewlines(ts, |xs| - 1);
    LastTextNoNewline(ts);
    CountCharConcat('\n', Pieces(ts, |xs| - 1), LastText(ts));
    AbsentChar('\n', LastText(ts));
    Mod10Div10(|xs| - 1);
  }

  /** The rendered list ends with a comma exactly when the number of values
      is a multiple of ten; otherwise it ends with the last value's digits. */
  lemma LineListTrailingComma(xs: seq<int>)
    requires |xs| >= 1
    ensures RenderLineList(Some(xs)).Success?
    ensures var s := RenderLineList(Some(xs)).value;
            |s| >= 1 && (s[|s| - 1] == ',' <==> |xs| % 10 == 0)
  {
    LastCharacterDropped(xs);
    var s := RenderLineList(Some(xs)).value;
    var l := LastValue(xs);
    assert s[|s| - 1] == l[|l| - 1];
    Mod10Div10(|xs|);
  }

  /** Apart from its line breaks, the rendered list is the values in input
      order, each followed by a comma except the last, which keeps its comma
      only when the count is a multiple of ten. */
  lemma LineListValues(xs: seq<int>)
    requires |xs| >= 1
    ensures RenderLineList(Some(xs)).Success?
    ensures RemoveChar('\n', RenderLineList(Some(xs)).value)
            == Concat(ValueTexts(xs)[..|xs| - 1]) + LastValue(xs)
  {
    var ts := ValueTexts(xs);
    LastCharacterDropped(xs);
    ValueTextsAreShaped(xs);
    RenderedValues(ts);
  }
}
