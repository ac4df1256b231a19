/**
 * Field text handling of csvdiff: `trim` strips one character from both
 * ends of a string, and `split` cuts a line into fields the way a
 * `std::getline` loop over a string stream does, trimming spaces and then
 * double quotes from every field.
 */
module Text {

  // ---------------------------------------------------------------------
  // trim
  // ---------------------------------------------------------------------

  /** `s` without its trailing run of `ch`. */
  function TrimEnd(s: string, ch: char): string
    decreases |s|
  {
    if s != [] && s[|s| - 1] == ch then TrimEnd(s[..|s| - 1], ch) else s
  }

  /** `s` without its leading run of `ch`. */
  function TrimStart(s: string, ch: char): string
    decreases |s|
  {
    if s != [] && s[0] == ch then TrimStart(s[1..], ch) else s
  }

  /** What `trim(str, ch)` leaves in `str`: the tail is cut first, then the head. */
  function Trimmed(s: string, ch: char): string
  {
    TrimStart(TrimEnd(s, ch), ch)
  }

  /** Every character of `s` is `ch`. */
  predicate AllAre(s: string, ch: char)
  {
    forall k :: 0 <= k < |s| ==> s[k] == ch
  }

  lemma {:induction false} TrimEndSlice(s: string, ch: char) returns (j: nat)
    ensures j <= |s| && TrimEnd(s, ch) == s[..j]
    ensures forall k :: j <= k < |s| ==> s[k] == ch
    ensures j == 0 || s[j - 1] != ch
    decreases |s|
  {
    if s != [] && s[|s| - 1] == ch {
      j := TrimEndSlice(s[..|s| - 1], ch);
      assert s[..|s| - 1][..j] == s[..j];
    } else {
      j := |s|;
      assert s[..j] == s;
    }
  }

  lemma {:induction false} TrimStartSlice(s: string, ch: char) returns (i: nat)
    ensures i <= |s| && TrimStart(s, ch) == s[i..]
    ensures forall k :: 0 <= k < i ==> s[k] == ch
    ensures i == |s| || s[i] != ch
    decreases |s|
  {
    if s != [] && s[0] == ch {
      var i' := TrimStartSlice(s[1..], ch);
      i := i' + 1;
      assert s[1..][i'..] == s[i..];
    } else {
      i := 0;
    }
  }

  /**
   * `trim` removes only a leading and a trailing run of `ch`: the result is
   * the slice `s[i..j]`, everything before `i` and from `j` on is `ch`, and
   * the result neither starts nor ends with `ch`.
   */
  lemma TrimmedSlice(s: string, ch: char) returns (i: nat, j: nat)
    ensures i <= j <= |s| && Trimmed(s, ch) == s[i..j]
    ensures forall k :: 0 <= k < i ==> s[k] == ch
    ensures forall k :: j <= k < |s| ==> s[k] == ch
    ensures Trimmed(s, ch) == [] || (Trimmed(s, ch)[0] != ch && Trimmed(s, ch)[|Trimmed(s, ch)| - 1] != ch)
  {
    j := TrimEndSlice(s, ch);
    i := TrimStartSlice(s[..j], ch);
    assert s[..j][i..] == s[i..j];
  }

  /** An empty or all-`ch` string trims to empty, and nothing else does. */
  lemma TrimmedEmpty(s: string, ch: char)
    ensures Trimmed(s, ch) == [] <==> AllAre(s, ch)
  {
    var i, j := TrimmedSlice(s, ch);
    if Trimmed(s, ch) == [] {
      forall k | 0 <= k < |s| ensures s[k] == ch {
        if k >= i {
          assert k >= j;
        }
      }
    }
  }

  /** Trimming twice with the same character changes nothing more. */
  lemma TrimmedIdempotent(s: string, ch: char)
    ensures Trimmed(Trimmed(s, ch), ch) == Trimmed(s, ch)
  {
    var i, j := TrimmedSlice(s, ch);
    var t := Trimmed(s, ch);
    assert TrimEnd(t, ch) == t;
    assert TrimStart(t, ch) == t;
  }

  /**
   * `trim(str, ch)`: finds the last character that is not `ch` and erases
   * after it, or empties the string when there is none; then finds the
   * first character that is not `ch` and erases before it.
   */
  method Trim(s: string, ch: char) returns (t: string)
    ensures t == Trimmed(s, ch)
  {
    var last := |s|;
    assert s[..last] == s;
    while last > 0 && s[last - 1] == ch
      invariant 0 <= last <= |s|
      invariant TrimEnd(s[..last], ch) == TrimEnd(s, ch)
    {
      assert s[..last][..last - 1] == s[..last - 1];
      last := last - 1;
    }
    if last == 0 {
      t := [];
      return;
    }
    t := s[..last];
    var first := 0;
    while t[first] == ch
      invariant 0 <= first < |t|
      invariant TrimStart(t[first..], ch) == Trimmed(s, ch)
      decreases |t| - first
    {
      assert t[first..][1..] == t[first + 1..];
      first := first + 1;
    }
    t := t[first..];
  }

  // ---------------------------------------------------------------------
  // find
  // ---------------------------------------------------------------------

  /** The first index at or after `from` holding `c`, or `|s|` when there is none. */
  function FindFrom(s: string, c: char, from: nat): (k: nat)
    requires from <= |s|
    ensures from <= k <= |s| && c !in s[from..k]
    ensures k < |s| ==> s[k] == c
    decreases |s| - from
  {
    if from == |s| || s[from] == c then from else FindFrom(s, c, from + 1)
  }

  /** `FindFrom` is the least such index: any `q` with no `c` before it that holds `c` (or is the end) is it. */
  lemma FindFromLeast(s: string, c: char, from: nat, q: nat)
    requires from <= q <= |s|
    requires q == |s| || s[q] == c
    requires c !in s[from..q]
    ensures FindFrom(s, c, from) == q
  {
  }

  /** `std::string::find(c, from)` and the scan `getline` does for its delimiter; `|s|` stands for `npos`. */
  method Find(s: string, c: char, from: nat) returns (k: nat)
    requires from <= |s|
    ensures k == FindFrom(s, c, from)
  {
    k := from;
    while k < |s| && s[k] != c
      invariant from <= k <= |s|
      invariant FindFrom(s, c, from) == FindFrom(s, c, k)
    {
      k := k + 1;
    }
  }

  // ---------------------------------------------------------------------
  // split
  // ---------------------------------------------------------------------

  /**
   * The raw pieces `getline(ss, item, d)` extracts from `s[p..]`: each call
   * succeeds while at least one character is left, and takes the text up
   * to the next `d` or up to the end; the next call starts one past the
   * delimiter, which is past the end when none was found.
   */
  function PiecesFrom(s: string, d: char, p: nat): seq<string>
    requires p <= |s| + 1
    decreases |s| + 1 - p
  {
    if p >= |s| then []
    else
      var q := FindFrom(s, d, p);
      [s[p..q]] + PiecesFrom(s, d, q + 1)
  }

  /** The raw pieces of a whole line. */
  function Pieces(s: string, d: char): seq<string>
  {
    PiecesFrom(s, d, 0)
  }

  /** One `getline` call: the piece up to the next delimiter, then the pieces after it. */
  lemma PiecesFromStep(s: string, d: char, p: nat)
    requires p < |s|
    ensures var q := FindFrom(s, d, p);
      PiecesFrom(s, d, p) == [s[p..q]] + PiecesFrom(s, d, q + 1)
  {
  }

  /** The pieces of `s[p..]` with `f` applied to each, in order. */
  function MapPiecesFrom(s: string, d: char, p: nat, f: string -> string): seq<string>
    requires p <= |s| + 1
    decreases |s| + 1 - p
  {
    if p >= |s| then []
    else
      var q := FindFrom(s, d, p);
      [f(s[p..q])] + MapPiecesFrom(s, d, q + 1, f)
  }

  /** One step of the mapped pieces: the mapped first piece, then the rest. */
  lemma MapPiecesFromStep(s: string, d: char, p: nat, f: string -> string)
    requires p < |s|
    ensures var q := FindFrom(s, d, p);
      MapPiecesFrom(s, d, p, f) == [f(s[p..q])] + MapPiecesFrom(s, d, q + 1, f)
  {
  }

  /** The mapped pieces of `s[p..]` match its pieces, given that those from `next`, just past the first piece, do. */
  lemma MapPiecesFromAtStep(s: string, d: char, p: nat, next: nat, f: string -> string)
    requires p < |s| && next == FindFrom(s, d, p) + 1
    requires |MapPiecesFrom(s, d, next, f)| == |PiecesFrom(s, d, next)|
    requires forall k :: 0 <= k < |PiecesFrom(s, d, next)| ==> MapPiecesFrom(s, d, next, f)[k] == f(PiecesFrom(s, d, next)[k])
    ensures |MapPiecesFrom(s, d, p, f)| == |PiecesFrom(s, d, p)|
    ensures forall k :: 0 <= k < |PiecesFrom(s, d, p)| ==> MapPiecesFrom(s, d, p, f)[k] == f(PiecesFrom(s, d, p)[k])
  {
    var q := next - 1;
    var mapped, pieces := MapPiecesFrom(s, d, next, f), PiecesFrom(s, d, next);
    var all, allPieces := MapPiecesFrom(s, d, p, f), PiecesFrom(s, d, p);
    assert all == [f(s[p..q])] + mapped by {
      MapPiecesFromStep(s, d, p, f);
    }
    assert allPieces == [s[p..q]] + pieces by {
      PiecesFromStep(s, d, p);
    }
    forall k | 0 <= k < |allPieces|
      ensures all[k] == f(allPieces[k])
    {
      if k > 0 {
        assert all[k] == mapped[k - 1] && allPieces[k] == pieces[k - 1];
      }
    }
  }

  lemma {:induction false} MapPiecesFromAt(s: string, d: char, p: nat, f: string -> string)
    requires p <= |s| + 1
    ensures |MapPiecesFrom(s, d, p, f)| == |PiecesFrom(s, d, p)|
    ensures forall k :: 0 <= k < |PiecesFrom(s, d, p)| ==> MapPiecesFrom(s, d, p, f)[k] == f(PiecesFrom(s, d, p)[k])
    decreases |s| + 1 - p
  {
    if p < |s| {
      var next := FindFrom(s, d, p) + 1;
      MapPiecesFromAt(s, d, next, f);
      MapPiecesFromAtStep(s, d, p, next, f);
    }
  }

  /** One field as `split` stores it: spaces trimmed, then double quotes. */
  function CleanField(piece: string): string
  {
    Trimmed(Trimmed(piece, ' '), '"')
  }

  /** What `split(s, d)` returns. */
  function Fields(s: string, d: char): seq<string>
  {
    MapPiecesFrom(s, d, 0, CleanField)
  }

  /**
   * `split` returns one field per piece, in input order, each piece with
   * spaces and then double quotes trimmed.
   */
  lemma FieldsArePieces(s: string, d: char)
    ensures |Fields(s, d)| == |Pieces(s, d)|
    ensures forall k :: 0 <= k < |Fields(s, d)| ==> Fields(s, d)[k] == CleanField(Pieces(s, d)[k])
  {
    MapPiecesFromAt(s, d, 0, CleanField);
  }

  /** Every piece followed by one delimiter, in order. */
  function Terminated(ps: seq<string>, d: char): string
  {
    if ps == [] then [] else ps[0] + [d] + Terminated(ps[1..], d)
  }

  lemma TerminatedPrepend(head: string, rest: seq<string>, d: char)
    ensures Terminated([head] + rest, d) == head + [d] + Terminated(rest, d)
  {
    assert ([head] + rest)[1..] == rest;
  }

  lemma {:induction false} PiecesFromNoDelimiter(s: string, d: char, p: nat)
    requires p <= |s| + 1
    ensures forall k :: 0 <= k < |PiecesFrom(s, d, p)| ==> d !in PiecesFrom(s, d, p)[k]
    decreases |s| + 1 - p
  {
    if p < |s| {
      var q := FindFrom(s, d, p);
      var ps, rest := PiecesFrom(s, d, p), PiecesFrom(s, d, q + 1);
      PiecesFromStep(s, d, p);
      PiecesFromNoDelimiter(s, d, q + 1);
      forall k | 0 <= k < |ps| ensures d !in ps[k] {
        if k > 0 {
          assert ps[k] == rest[k - 1];
        }
      }
    }
  }

  /** A suffix of `s` cut around position `q`. */
  lemma SliceAround(s: string, p: nat, q: nat)
    requires p <= q < |s|
    ensures s[p..] == s[p..q] + [s[q]] + s[q + 1..]
  {
  }

  /** The sequence algebra of one round-trip step: a piece, its delimiter, then the rest. */
  lemma RoundTripGlue(line: string, head: string, tail: string, t: string, d: char, endsInD: bool)
    requires line == head + [d] + tail
    requires t == if endsInD then tail else tail + [d]
    ensures head + [d] + t == if endsInD then line else line + [d]
  {
  }

  /** The round trip for a first piece that runs to the end of the line. */
  lemma RoundTripLast(s: string, d: char, p: nat)
    requires p < |s| && FindFrom(s, d, p) == |s|
    ensures s[|s| - 1] != d
    ensures Terminated(PiecesFrom(s, d, p), d) == s[p..] + [d]
  {
    assert s[p..|s|][|s| - 1 - p] == s[|s| - 1];
    PiecesFromStep(s, d, p);
    TerminatedPrepend(s[p..], [], d);
  }

  /** The round trip for a first piece ended by a delimiter, given the round trip of the rest. */
  lemma RoundTripNext(s: string, d: char, p: nat)
    requires p < |s| && FindFrom(s, d, p) < |s|
    requires var q := FindFrom(s, d, p);
      q + 1 < |s| ==>
        Terminated(PiecesFrom(s, d, q + 1), d) == if s[|s| - 1] == d then s[q + 1..] else s[q + 1..] + [d]
    ensures Terminated(PiecesFrom(s, d, p), d) == if s[|s| - 1] == d then s[p..] else s[p..] + [d]
  {
    var q := FindFrom(s, d, p);
    var rest := PiecesFrom(s, d, q + 1);
    PiecesFromStep(s, d, p);
    TerminatedPrepend(s[p..q], rest, d);
    SliceAround(s, p, q);
    if q + 1 == |s| {
      assert rest == [] && s[q + 1..] == [];
    }
    RoundTripGlue(s[p..], s[p..q], s[q + 1..], Terminated(rest, d), d, s[|s| - 1] == d);
  }

  /** The round trip of `s[p..]`, given the round trip after its first piece `s[p..q]` when one remains. */
  lemma RoundTripStep(s: string, d: char, p: nat, q: nat)
    requires p < |s| && q == FindFrom(s, d, p)
    requires q + 1 < |s| ==>
      Terminated(PiecesFrom(s, d, q + 1), d) == if s[|s| - 1] == d then s[q + 1..] else s[q + 1..] + [d]
    ensures Terminated(PiecesFrom(s, d, p), d) == if s[|s| - 1] == d then s[p..] else s[p..] + [d]
  {
    if q == |s| {
      RoundTripLast(s, d, p);
    } else {
      RoundTripNext(s, d, p);
    }
  }

  lemma {:induction false} PiecesFromRoundTrip(s: string, d: char, p: nat)
    requires p < |s|
    ensures Terminated(PiecesFrom(s, d, p), d) == if s[|s| - 1] == d then s[p..] else s[p..] + [d]
    decreases |s| - p
  {
    var q := FindFrom(s, d, p);
    if q + 1 < |s| {
      PiecesFromRoundTrip(s, d, q + 1);
    }
    RoundTripStep(s, d, p, q);
  }

  /**
   * The pieces contain no delimiter, and writing each one back followed by
   * the delimiter restores the line, up to the one final delimiter that a
   * line not ending in the delimiter lacks.
   */
  lemma PiecesRoundTrip(s: string, d: char)
    ensures forall k :: 0 <= k < |Pieces(s, d)| ==> d !in Pieces(s, d)[k]
    ensures Terminated(Pieces(s, d), d) == if s == [] || s[|s| - 1] == d then s else s + [d]
  {
    PiecesFromNoDelimiter(s, d, 0);
    if s != [] {
      PiecesFromRoundTrip(s, d, 0);
      assert s[0..] == s;
    }
  }

  /** Appending the delimiter to a line does not move the delimiter search from any position of it. */
  lemma FindFromSnoc(s: string, d: char, p: nat)
    requires p <= |s|
    ensures FindFrom(s + [d], d, p) == FindFrom(s, d, p)
  {
    var s' := s + [d];
    var q := FindFrom(s, d, p);
    assert s'[p..q] == s[p..q];
    assert s'[q] == d;
    FindFromLeast(s', d, p, q);
  }

  /** The first `getline` call on `s + [d]` extracts the same piece as on `s`. */
  lemma TrailingFirstPiece(s: string, d: char, p: nat)
    requires p < |s|
    ensures var q := FindFrom(s, d, p);
      PiecesFrom(s + [d], d, p) == [s[p..q]] + PiecesFrom(s + [d], d, q + 1)
  {
    var s' := s + [d];
    var q := FindFrom(s, d, p);
    FindFromSnoc(s, d, p);
    assert s'[p..q] == s[p..q];
    PiecesFromStep(s', d, p);
  }

  /** The appended delimiter leaves the pieces of `s[p..]` alone, given that it leaves those after the first piece alone. */
  lemma TrailingStep(s: string, d: char, p: nat)
    requires p < |s| && s[|s| - 1] != d
    requires FindFrom(s, d, p) < |s| ==>
      PiecesFrom(s + [d], d, FindFrom(s, d, p) + 1) == PiecesFrom(s, d, FindFrom(s, d, p) + 1)
    ensures PiecesFrom(s + [d], d, p) == PiecesFrom(s, d, p)
  {
    var q := FindFrom(s, d, p);
    TrailingFirstPiece(s, d, p);
    PiecesFromStep(s, d, p);
    if q == |s| {
      assert PiecesFrom(s + [d], d, q + 1) == [];
    }
  }

  lemma {:induction false} PiecesFromTrailing(s: string, d: char, p: nat)
    requires p < |s| && s[|s| - 1] != d
    ensures PiecesFrom(s + [d], d, p) == PiecesFrom(s, d, p)
    decreases |s| - p
  {
    if FindFrom(s, d, p) < |s| {
      assert FindFrom(s, d, p) + 1 < |s| by {
        assert s[FindFrom(s, d, p)] == d;
      }
      PiecesFromTrailing(s, d, FindFrom(s, d, p) + 1);
    }
    TrailingStep(s, d, p);
  }

  /**
   * `getline` semantics: an empty line gives no piece, a non-empty line at
   * least one, and a delimiter at the end of a line adds no empty final
   * piece.
   */
  lemma PiecesGetline(s: string, d: char)
    ensures Pieces(s, d) == [] <==> s == []
    ensures s != [] && s[|s| - 1] != d ==> Pieces(s + [d], d) == Pieces(s, d)
  {
    if s != [] && s[|s| - 1] != d {
      PiecesFromTrailing(s, d, 0);
    }
  }

  /** The two `trim` calls `split` makes on every piece. */
  method CleanPiece(piece: string) returns (field: string)
    ensures field == CleanField(piece)
  {
    field := Trim(piece, ' ');
    field := Trim(field, '"');
  }

  /**
   * One `getline` call of `split` and the trimming of its piece: the next
   * field, and the position after the piece and its delimiter.
   */
  method NextField(s: string, d: char, p: nat) returns (field: string, next: nat)
    requires p < |s|
    ensures p < next <= |s| + 1
    ensures MapPiecesFrom(s, d, p, CleanField) == [field] + MapPiecesFrom(s, d, next, CleanField)
  {
    var q := Find(s, d, p);
    field := CleanPiece(s[p..q]);
    next := q + 1;
    MapPiecesFromStep(s, d, p, CleanField);
  }

  /**
   * `split(str, delim)`: repeatedly extracts a piece with `getline`, trims
   * spaces and then double quotes from it and appends it to the result.
   */
  method Split(s: string, d: char) returns (fields: seq<string>)
    ensures fields == Fields(s, d)
  {
    fields := [];
    var p := 0;
    while p < |s|
      invariant p <= |s| + 1
      invariant Fields(s, d) == fields + MapPiecesFrom(s, d, p, CleanField)
      decreases |s| + 1 - p
    {
      var field, next := NextField(s, d, p);
      assert fields + ([field] + MapPiecesFrom(s, d, next, CleanField)) == (fields + [field]) + MapPiecesFrom(s, d, next, CleanField);
      fields := fields + [field];
      p := next;
    }
  }
}
