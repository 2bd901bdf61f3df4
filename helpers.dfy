/** The string helpers of the `Helper` namespace: trim, split, isNumber, toUpper. */
module Helper {
  import opened Common

  predicate AllSpace(s: string) {
    forall i :: 0 <= i < |s| ==> IsSpace(s[i])
  }

  /** Length of the run of whitespace that starts the string. */
  function LeadingSpaces(s: string): (n: nat)
    ensures n <= |s|
    ensures forall k :: 0 <= k < n ==> IsSpace(s[k])
    ensures n < |s| ==> !IsSpace(s[n])
  {
    if s != [] && IsSpace(s[0]) then 1 + LeadingSpaces(s[1..]) else 0
  }

  /** Length of the run of whitespace that ends the string. */
  function TrailingSpaces(s: string): (n: nat)
    ensures n <= |s|
    ensures forall k :: |s| - n <= k < |s| ==> IsSpace(s[k])
    ensures n < |s| ==> !IsSpace(s[|s| - 1 - n])
  {
    if s != [] && IsSpace(s[|s| - 1]) then 1 + TrailingSpaces(s[..|s| - 1]) else 0
  }

  /** Where the kept text of a trim ends: before the trailing whitespace, or at the
      end of the string when the string is blank. */
  function TrimEnd(s: string): (e: nat)
    ensures LeadingSpaces(s) <= e <= |s|
    ensures LeadingSpaces(s) < |s| ==> LeadingSpaces(s) < e == |s| - TrailingSpaces(s)
  {
    if LeadingSpaces(s) == |s| then |s| else TrimBounds(s); |s| - TrailingSpaces(s)
  }

  /** A non-blank character sits before the trailing whitespace. */
  lemma TrimBounds(s: string)
    requires LeadingSpaces(s) < |s|
    ensures LeadingSpaces(s) < |s| - TrailingSpaces(s)
  {
    assert !IsSpace(s[LeadingSpaces(s)]);
  }

  /** The string without its leading and trailing whitespace: what `trim` returns. */
  function Trimmed(s: string): string {
    s[LeadingSpaces(s)..TrimEnd(s)]
  }

  /** A blank string trims to "", and only a blank one does. */
  lemma TrimmedEmptyIffBlank(s: string)
    ensures AllSpace(s) <==> Trimmed(s) == []
  {
    var a := LeadingSpaces(s);
    if a < |s| {
      assert !IsSpace(s[a]);
    }
  }

  /** `trim` keeps exactly the contiguous text from the first to the last
      non-blank character: what it drops on either side is blank, and what it keeps
      starts and ends with a non-blank character. */
  lemma TrimmedCharacterization(s: string)
    requires !AllSpace(s)
    ensures var r, a, b := Trimmed(s), LeadingSpaces(s), TrimEnd(s);
      && a < b
      && s == s[..a] + r + s[b..]
      && AllSpace(s[..a]) && AllSpace(s[b..])
      && !IsSpace(r[0]) && !IsSpace(r[|r| - 1])
  {
    TrimKeepsMiddle(s);
    TrimDropsBlanks(s);
    TrimKeepsNonBlankEnds(s);
  }

  lemma TrimKeepsMiddle(s: string)
    ensures s == s[..LeadingSpaces(s)] + Trimmed(s) + s[TrimEnd(s)..]
  {
  }

  lemma TrimDropsBlanks(s: string)
    ensures AllSpace(s[..LeadingSpaces(s)]) && AllSpace(s[TrimEnd(s)..])
  {
    var a, b := LeadingSpaces(s), TrimEnd(s);
    forall k | 0 <= k < a ensures IsSpace(s[..a][k]) {
      assert s[..a][k] == s[k];
    }
    forall k | 0 <= k < |s| - b ensures IsSpace(s[b..][k]) {
      assert s[b..][k] == s[b + k];
    }
  }

  lemma TrimKeepsNonBlankEnds(s: string)
    requires !AllSpace(s)
    ensures LeadingSpaces(s) < TrimEnd(s)
    ensures var r := Trimmed(s); !IsSpace(r[0]) && !IsSpace(r[|r| - 1])
  {
    var a, b := LeadingSpaces(s), TrimEnd(s);
    assert a < |s|;
    var r := s[a..b];
    assert r[0] == s[a];
    assert r[|r| - 1] == s[b - 1];
  }

  /** Every character of the trimmed string occurs in the original. */
  lemma TrimmedIsSubstring(s: string)
    ensures forall c :: c in Trimmed(s) ==> c in s
  {
    var a, b := LeadingSpaces(s), TrimEnd(s);
    forall c | c in Trimmed(s) ensures c in s {
      var k :| 0 <= k < |Trimmed(s)| && Trimmed(s)[k] == c;
      assert s[a + k] == c;
    }
  }

  /** Trimming twice is trimming once. */
  lemma TrimIdempotent(s: string)
    ensures Trimmed(Trimmed(s)) == Trimmed(s)
  {
    var r := Trimmed(s);
    TrimmedEmptyIffBlank(s);
    if r != [] {
      TrimmedCharacterization(s);
      assert LeadingSpaces(r) == 0;
      assert TrailingSpaces(r) == 0;
      assert r[0..|r|] == r;
    }
  }

  /** `trim`: advance `start` over leading whitespace, retreat `end` over trailing whitespace. */
  method Trim(str: string) returns (r: string)
    ensures r == Trimmed(str)
  {
    var start := 0;
    while start < |str| && IsSpace(str[start])
      invariant 0 <= start <= |str|
      invariant forall k :: 0 <= k < start ==> IsSpace(str[k])
    {
      start := start + 1;
    }
    assert start == LeadingSpaces(str);
    var end := |str| - 1;
    while end >= start && IsSpace(str[end])
      invariant start - 1 <= end <= |str| - 1
      invariant forall k :: end < k < |str| ==> IsSpace(str[k])
    {
      end := end - 1;
    }
    if start > end {
      assert start == |str|;
      return "";
    }
    assert TrailingSpaces(str) == |str| - 1 - end by { assert !IsSpace(str[end]); }
    r := str[start..end + 1];
  }

  /** Index of the first occurrence of `d`, or `|s|` when there is none. */
  function IndexOf(s: string, d: char): (k: nat)
    ensures k <= |s|
    ensures forall j :: 0 <= j < k ==> s[j] != d
    ensures k < |s| ==> s[k] == d
  {
    if s == [] || s[0] == d then 0 else 1 + IndexOf(s[1..], d)
  }

  /** The pieces that successive `getline(stream, piece, d)` calls extract from `s`:
      the text up to each delimiter, and a last piece only if text follows the last
      delimiter (an exhausted stream makes `getline` fail). */
  function Pieces(s: string, d: char): seq<string>
    decreases |s|
  {
    if s == [] then []
    else
      var k := IndexOf(s, d);
      if k == |s| then [s] else [s[..k]] + Pieces(s[k + 1..], d)
  }

  /** Writes each piece followed by the delimiter. */
  function Rejoin(ps: seq<string>, d: char): string {
    if ps == [] then [] else ps[0] + [d] + Rejoin(ps[1..], d)
  }

  /** The pieces put back together give the input, up to a final delimiter that
      `getline` swallows: nothing is lost and nothing is added. */
  lemma {:induction false} PiecesRejoin(s: string, d: char)
    ensures Rejoin(Pieces(s, d), d) == if s == [] || s[|s| - 1] == d then s else s + [d]
    decreases |s|
  {
    if s != [] {
      var k := IndexOf(s, d);
      if k == |s| {
        assert Pieces(s, d) == [s];
        assert Rejoin([s], d) == s + [d] + Rejoin([], d);
      } else {
        var head, rest := s[..k], s[k + 1..];
        var ps := Pieces(rest, d);
        assert Pieces(s, d) == [head] + ps;
        assert ([head] + ps)[1..] == ps;
        assert Rejoin(Pieces(s, d), d) == head + [d] + Rejoin(ps, d);
        PiecesRejoin(rest, d);
        RejoinStep(s, k, d);
      }
    }
  }

  /** The arithmetic of one delimiter in `PiecesRejoin`. */
  lemma RejoinStep(s: string, k: nat, d: char)
    requires k < |s| && s[k] == d
    ensures var head, rest := s[..k], s[k + 1..];
      head + [d] + (if rest == [] || rest[|rest| - 1] == d then rest else rest + [d])
      == if s[|s| - 1] == d then s else s + [d]
  {
    var head, rest := s[..k], s[k + 1..];
    assert s == head + [d] + rest;
    if rest != [] {
      assert rest[|rest| - 1] == s[|s| - 1];
      assert head + [d] + (rest + [d]) == s + [d];
    }
  }

  /** Keeps the non-empty pieces, each trimmed. The emptiness test comes before the
      trim, so a piece of blanks becomes "". */
  function TrimNonEmpty(ps: seq<string>): seq<string> {
    if ps == [] then []
    else (if ps[0] == [] then [] else [Trimmed(ps[0])]) + TrimNonEmpty(ps[1..])
  }

  lemma {:induction false} TrimNonEmptyAppend(ps: seq<string>, qs: seq<string>)
    ensures TrimNonEmpty(ps + qs) == TrimNonEmpty(ps) + TrimNonEmpty(qs)
  {
    if ps != [] {
      assert (ps + qs)[1..] == ps[1..] + qs;
      TrimNonEmptyAppend(ps[1..], qs);
    } else {
      assert ps + qs == qs;
    }
  }

  /** The result of `split(s, d)`. */
  function SplitSpec(s: string, d: char): seq<string> {
    TrimNonEmpty(Pieces(s, d))
  }

  /** No piece of a split contains the delimiter, and a split yields at most one
      string per piece. */
  lemma {:induction false} SplitPiecesLackDelimiter(s: string, d: char)
    ensures forall i :: 0 <= i < |SplitSpec(s, d)| ==> d !in SplitSpec(s, d)[i]
    ensures |SplitSpec(s, d)| <= |Pieces(s, d)|
  {
    PiecesLackDelimiter(s, d);
    TrimNonEmptyLacks(Pieces(s, d), d);
  }

  /** No piece contains the delimiter. */
  lemma {:induction false} PiecesLackDelimiter(s: string, d: char)
    ensures forall i :: 0 <= i < |Pieces(s, d)| ==> d !in Pieces(s, d)[i]
    decreases |s|
  {
    if s != [] {
      var k := IndexOf(s, d);
      if k < |s| {
        PiecesLackDelimiter(s[k + 1..], d);
        assert d !in s[..k];
      } else {
        assert d !in s;
      }
    }
  }

  lemma {:induction false} TrimNonEmptyLacks(ps: seq<string>, d: char)
    requires forall i :: 0 <= i < |ps| ==> d !in ps[i]
    ensures forall i :: 0 <= i < |TrimNonEmpty(ps)| ==> d !in TrimNonEmpty(ps)[i]
    ensures |TrimNonEmpty(ps)| <= |ps|
  {
    if ps != [] {
      TrimNonEmptyLacks(ps[1..], d);
      TrimmedIsSubstring(ps[0]);
    }
  }

  /** One step of a split: the text before the first delimiter contributes nothing
      when it is empty and its trimmed form otherwise. The emptiness test comes
      before the trim, so a piece of blanks contributes "" (`"a, ,b"` on `','`
      gives `["a", "", "b"]`). */
  lemma SplitStep(p: string, rest: string, d: char)
    requires d !in p
    ensures SplitSpec(p + [d] + rest, d) == (if p == [] then [] else [Trimmed(p)]) + SplitSpec(rest, d)
    ensures p != [] && AllSpace(p) ==> SplitSpec(p + [d] + rest, d) == [""] + SplitSpec(rest, d)
  {
    var s := p + [d] + rest;
    assert IndexOf(s, d) == |p| by {
      assert forall j :: 0 <= j < |p| ==> s[j] == p[j];
      assert s[|p|] == d;
    }
    assert s[..|p|] == p;
    assert s[|p| + 1..] == rest;
    assert Pieces(s, d) == [p] + Pieces(rest, d);
    TrimNonEmptyAppend([p], Pieces(rest, d));
    TrimmedEmptyIffBlank(p);
  }

  /** The text after the last delimiter is the last piece, if it is not empty. */
  lemma SplitLastPiece(p: string, d: char)
    requires d !in p
    ensures SplitSpec(p, d) == if p == [] then [] else [Trimmed(p)]
  {
    if p != [] {
      assert IndexOf(p, d) == |p|;
      assert Pieces(p, d) == [p];
      assert TrimNonEmpty([p]) == [Trimmed(p)] + TrimNonEmpty([]);
    }
  }

  /** One round of the `getline` loop: the piece that starts at `pos` and ends at `k` (a delimiter or the end). */
  lemma SplitRound(str: string, d: char, pos: nat, k: nat)
    requires pos <= k <= |str|
    requires d !in str[pos..k]
    requires k < |str| ==> str[k] == d
    ensures var next := if k < |str| then k + 1 else k;
      SplitSpec(str[pos..], d)
      == (if str[pos..k] == [] then [] else [Trimmed(str[pos..k])]) + SplitSpec(str[next..], d)
  {
    var piece := str[pos..k];
    if k < |str| {
      assert str[pos..] == piece + [d] + str[k + 1..];
      SplitStep(piece, str[k + 1..], d);
    } else {
      assert str[pos..] == piece;
      SplitLastPiece(piece, d);
      assert str[k..] == [];
    }
  }

  /** What one `getline` call reads: from `pos` up to the next delimiter or the end of the input. */
  method ReadPiece(str: string, delimiter: char, pos: nat) returns (k: nat)
    requires pos <= |str|
    ensures pos <= k <= |str|
    ensures delimiter !in str[pos..k]
    ensures k < |str| ==> str[k] == delimiter
  {
    k := pos;
    while k < |str| && str[k] != delimiter
      invariant pos <= k <= |str|
      invariant delimiter !in str[pos..k]
    {
      k := k + 1;
    }
  }

  /** `split`: reads pieces with `getline` and keeps the trimmed form of every non-empty piece. */
  method Split(str: string, delimiter: char) returns (tokens: seq<string>)
    ensures tokens == SplitSpec(str, delimiter)
  {
    tokens := [];
    var pos := 0;
    assert str[pos..] == str;
    while pos < |str|
      invariant 0 <= pos <= |str|
      invariant SplitSpec(str, delimiter) == tokens + SplitSpec(str[pos..], delimiter)
    {
      var k := ReadPiece(str, delimiter, pos);
      var piece := str[pos..k];
      var next := if k < |str| then k + 1 else k;
      var kept: seq<string> := [];
      if piece != [] {
        var t := Trim(piece);
        kept := [t];
      }
      assert SplitSpec(str, delimiter) == (tokens + kept) + SplitSpec(str[next..], delimiter) by {
        SplitRound(str, delimiter, pos, k);
      }
      tokens := tokens + kept;
      pos := next;
    }
    assert str[pos..] == [];
  }

  /** `isNumber`: a non-empty run of decimal digits, so no sign and no decimal point. */
  function IsNumber(str: string): (b: bool)
    ensures b ==> str != [] && '-' !in str && '+' !in str && '.' !in str
  {
    str != [] && forall i :: 0 <= i < |str| ==> IsDigit(str[i])
  }

  /** `toUpper`: the same length, every character mapped through `toupper`. */
  function ToUpper(str: string): (r: string)
    ensures |r| == |str|
    ensures forall i :: 0 <= i < |str| ==> r[i] == UpperChar(str[i])
  {
    if str == [] then [] else [UpperChar(str[0])] + ToUpper(str[1..])
  }

  /** Upper-casing twice is upper-casing once. */
  lemma ToUpperIdempotent(s: string)
    ensures ToUpper(ToUpper(s)) == ToUpper(s)
  {
  }

  /** No lower-case letter survives `toUpper`, and the string changes only if it had one. */
  lemma ToUpperRemovesLower(s: string)
    ensures forall i :: 0 <= i < |ToUpper(s)| ==> !IsLower(ToUpper(s)[i])
    ensures (forall i :: 0 <= i < |s| ==> !IsLower(s[i])) <==> ToUpper(s) == s
  {
    if forall i :: 0 <= i < |s| ==> !IsLower(s[i]) {
    } else {
      var i :| 0 <= i < |s| && IsLower(s[i]);
      assert ToUpper(s)[i] != s[i];
    }
  }
}
