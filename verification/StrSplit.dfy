/** Splitting a string at a separator, joining the pieces again, and removing the
    separator altogether. */
module StrSplits {

  datatype Error = NoError | InvalidParameter | OutOfRange

  datatype Outcome = Outcome(error: Error, pieces: seq<string>)

  predicate OccursAt(s: string, key: string, p: nat) {
    p + |key| <= |s| && s[p..p + |key|] == key
  }

  ghost predicate Contains(s: string, key: string) {
    exists p: nat :: OccursAt(s, key, p)
  }

  /** The first occurrence, or the length of `s`: the library's search. */
  function Find(s: string, key: string): (p: nat)
    requires key != ""
    ensures p <= |s|
    ensures p < |s| ==> OccursAt(s, key, p)
    ensures forall q: nat :: q < p || p == |s| ==> !OccursAt(s, key, q)
  {
    FindFrom(s, key, 0)
  }

  function FindFrom(s: string, key: string, beg: nat): (p: nat)
    requires key != "" && beg <= |s|
    ensures beg <= p <= |s|
    ensures p < |s| ==> OccursAt(s, key, p)
    ensures forall q: nat :: beg <= q && (q < p || p == |s|) ==> !OccursAt(s, key, q)
    decreases |s| - beg
  {
    if beg == |s| || OccursAt(s, key, beg) then beg else FindFrom(s, key, beg + 1)
  }

  /** The pieces between the occurrences found from left to right. */
  function Pieces(s: string, key: string): (ps: seq<string>)
    requires key != ""
    ensures ps != []
    decreases |s|
  {
    var p := Find(s, key);
    if p == |s| then [s] else [s[..p]] + Pieces(s[p + |key|..], key)
  }

  /** Every piece, with the separator after each. */
  function Joined(ps: seq<string>, l: string): string {
    if ps == [] then "" else ps[0] + l + Joined(ps[1..], l)
  }

  function Flat(ps: seq<string>): string {
    if ps == [] then "" else ps[0] + Flat(ps[1..])
  }

  lemma CutAt(s: string, key: string, p: nat)
    requires OccursAt(s, key, p)
    ensures s == s[..p] + key + s[p + |key|..]
  {
  }

  lemma JoinedCons(a: string, ps: seq<string>, l: string)
    ensures Joined([a] + ps, l) == a + l + Joined(ps, l)
  {
    assert ([a] + ps)[1..] == ps;
  }

  /** Nothing is lost: the pieces and their separators spell the string again, with one
      separator more at the end. */
  lemma {:induction false} JoinedPieces(s: string, key: string)
    requires key != ""
    ensures Joined(Pieces(s, key), key) == s + key
    decreases |s|
  {
    hide OccursAt, Find, Joined;
    var p := Find(s, key);
    if p < |s| {
      CutAt(s, key, p);
      var front, rest := s[..p], s[p + |key|..];
      JoinedPieces(rest, key);
      JoinedCons(front, Pieces(rest, key), key);
      assert front + key + (rest + key) == s + key;
    } else {
      OneJoined(s, key);
    }
  }

  lemma OneJoined(s: string, l: string)
    ensures Joined([s], l) == s + l
  {
    assert Joined([s], l) == s + l + Joined([], l);
  }

  /** The separators are found from left to right: behind each piece but the last stands the
      first occurrence in what is left, even one that overlaps the piece. */
  lemma {:induction false} PiecesAreLeftmost(s: string, key: string, i: nat, q: nat)
    requires key != "" && i + 1 < |Pieces(s, key)| && q < |Pieces(s, key)[i]|
    ensures !OccursAt(Pieces(s, key)[i] + key, key, q)
    decreases |s|
  {
    hide OccursAt, Find;
    var p := Find(s, key);
    CutAt(s, key, p);
    if i == 0 {
      CutOccurs(s, key, p, q);
    } else {
      PiecesAreLeftmost(s[p + |key|..], key, i - 1, q);
    }
  }

  lemma CutOccurs(s: string, key: string, p: nat, q: nat)
    requires OccursAt(s, key, p) && q < p && !OccursAt(s, key, q)
    ensures !OccursAt(s[..p] + key, key, q)
  {
    assert s[..p] + key == s[..p + |key|];
    assert s[..p + |key|][q..q + |key|] == s[q..q + |key|];
  }

  /** No piece contains the separator. */
  lemma {:induction false} PiecesAreFree(s: string, key: string)
    requires key != ""
    ensures forall i :: 0 <= i < |Pieces(s, key)| ==> !Contains(Pieces(s, key)[i], key)
    decreases |s|
  {
    var p := Find(s, key);
    if p < |s| {
      PiecesAreFree(s[p + |key|..], key);
      if q: nat :| OccursAt(s[..p], key, q) {
        assert s[..p][q..q + |key|] == s[q..q + |key|];
        assert OccursAt(s, key, q);
      }
    }
  }

  /** What joining returns: the last character is dropped, however long the separator
      is. */
  function Text(ps: seq<string>, l: string): string {
    var whole := Joined(ps, l);
    if l != "" && whole != "" then whole[..|whole| - 1] else whole
  }

  /** What `Split` answers and what it adds to the result: nothing for an empty string or
      separator, or for a start past the end, where the library throws. */
  function Splitting(s: string, key: string, beg: nat): Outcome {
    if s == "" || key == "" then Outcome(InvalidParameter, [])
    else if beg > |s| then Outcome(OutOfRange, [])
    else Outcome(NoError, Pieces(s[beg..], key))
  }

  lemma SplittingWhole(s: string, key: string)
    requires s != "" && key != ""
    ensures Splitting(s, key, 0) == Outcome(NoError, Pieces(s, key))
  {
    assert s[0..] == s;
  }

  /** Joining what `Split` has found gives the string back exactly when the separator has
      one character, or the string is empty (`Split` finds nothing then); a longer
      separator stays at the end but for its last character. */
  lemma JoinUndoesSplit(s: string, key: string)
    ensures Text(Splitting(s, key, 0).pieces, key) == s <==> s == "" || |key| == 1
    ensures s != "" && key != "" ==> Text(Splitting(s, key, 0).pieces, key) == s + key[..|key| - 1]
  {
    if s != "" && key != "" {
      SplittingWhole(s, key);
      TextOfPieces(s, key);
    }
  }

  lemma TextOfPieces(s: string, key: string)
    requires key != ""
    ensures Text(Pieces(s, key), key) == s + key[..|key| - 1]
    ensures Text(Pieces(s, key), key) == s <==> |key| == 1
  {
    JoinedPieces(s, key);
    assert (s + key)[..|s| + |key| - 1] == s + key[..|key| - 1];
    assert |s + key[..|key| - 1]| == |s| + |key| - 1;
  }

  lemma FreeOfChar(s: string, c: char)
    ensures Contains(s, [c]) <==> c in s
  {
    if c in s {
      var p :| 0 <= p < |s| && s[p] == c;
      assert s[p..p + 1] == [c];
      assert OccursAt(s, [c], p);
    }
    if p: nat :| OccursAt(s, [c], p) {
      assert s[p..p + 1][0] == s[p];
    }
  }

  /** The first separator of one character. */
  lemma FindAfter(a: string, c: char, b: string)
    requires c !in a
    ensures Find(a + [c] + b, [c]) == |a|
  {
    var s := a + [c] + b;
    assert s[|a|..|a| + 1] == [c];
    assert OccursAt(s, [c], |a|);
    forall q | 0 <= q < |a|
      ensures !OccursAt(s, [c], q)
    {
      assert s[q..q + 1] == [a[q]];
    }
  }

  lemma {:induction false} TextNext(ps: seq<string>, c: char)
    requires |ps| >= 2
    ensures Text(ps, [c]) == ps[0] + [c] + Text(ps[1..], [c])
  {
    var rest := Joined(ps[1..], [c]);
    assert Joined(ps[1..], [c]) == ps[1] + [c] + Joined(ps[1..][1..], [c]);
    assert (ps[0] + [c] + rest)[..|ps[0] + [c] + rest| - 1] == ps[0] + [c] + rest[..|rest| - 1];
  }

  lemma TextOfOne(p: string, c: char)
    ensures Text([p], [c]) == p
  {
    assert Joined([p], [c]) == p + [c] + Joined([], [c]);
    assert (p + [c])[..|p|] == p;
  }

  /** Splitting undoes joining for pieces without the separator. */
  lemma {:induction false} PiecesOfText(ps: seq<string>, c: char)
    requires ps != [] && forall i :: 0 <= i < |ps| ==> c !in ps[i]
    ensures Pieces(Text(ps, [c]), [c]) == ps
  {
    if |ps| == 1 {
      assert ps == [ps[0]];
      TextOfOne(ps[0], c);
      FreeOfChar(ps[0], c);
    } else {
      var rest := Text(ps[1..], [c]);
      TextNext(ps, c);
      FindAfter(ps[0], c, rest);
      assert (ps[0] + [c] + rest)[..|ps[0]|] == ps[0];
      assert (ps[0] + [c] + rest)[|ps[0]| + 1..] == rest;
      PiecesOfText(ps[1..], c);
    }
  }

  /** ... and only for those. */
  lemma PiecesOfTextIff(ps: seq<string>, c: char)
    ensures Pieces(Text(ps, [c]), [c]) == ps <==> ps != [] && forall i :: 0 <= i < |ps| ==> c !in ps[i]
  {
    if ps != [] && forall i :: 0 <= i < |ps| ==> c !in ps[i] {
      PiecesOfText(ps, c);
    }
    if Pieces(Text(ps, [c]), [c]) == ps {
      PiecesAreFree(Text(ps, [c]), [c]);
      forall i | 0 <= i < |ps|
        ensures c !in ps[i]
      {
        FreeOfChar(ps[i], c);
      }
    }
  }

  /** Joining comes to nothing only for no piece and for one empty piece. */
  lemma TextEmpty(ps: seq<string>, c: char)
    ensures Text(ps, [c]) == "" <==> ps == [] || ps == [""]
  {
    if |ps| == 1 {
      TextOfOne(ps[0], c);
      assert ps == [ps[0]];
    } else if |ps| >= 2 {
      TextNext(ps, c);
    }
  }

  /** `Split` accepts a joined text and finds the pieces it was joined from exactly when
      none contains the separator and they are more than one empty piece. */
  lemma SplitUndoesJoin(ps: seq<string>, c: char)
    ensures Splitting(Text(ps, [c]), [c], 0) == Outcome(NoError, ps) <==>
            ps != [] && ps != [""] && forall i :: 0 <= i < |ps| ==> c !in ps[i]
  {
    TextEmpty(ps, c);
    PiecesOfTextIff(ps, c);
    if Text(ps, [c]) != "" {
      SplittingWhole(Text(ps, [c]), [c]);
    }
  }

  // ---------- removing ----------

  /** What is left when the first occurrence is taken out again and again. */
  function Removed(s: string, key: string): string
    requires key != ""
    decreases |s|
  {
    var p := Find(s, key);
    if p == |s| then s else Removed(s[..p] + s[p + |key|..], key)
  }

  lemma TakenOut(s: string, key: string, p: nat)
    requires key != "" && OccursAt(s, key, p)
    ensures p + |key| <= |s|
    ensures |s[..p] + s[p + |key|..]| < |s|
  {
  }

  /** No occurrence is left, also none that the removals bring about. */
  lemma {:induction false} RemovedIsFree(s: string, key: string)
    requires key != ""
    ensures !Contains(Removed(s, key), key)
    ensures Removed(s, key) == s <==> !Contains(s, key)
    ensures |Removed(s, key)| <= |s|
    decreases |s|
  {
    hide OccursAt, Find, Contains;
    var p := Find(s, key);
    FindContains(s, key);
    if p < |s| {
      TakenOut(s, key, p);
      RemovedIsFree(s[..p] + s[p + |key|..], key);
    }
  }

  lemma FindContains(s: string, key: string)
    requires key != ""
    ensures Contains(s, key) <==> Find(s, key) < |s|
  {
    hide OccursAt, Find;
  }

  function Without(s: string, c: char): string {
    if s == "" then "" else (if s[0] == c then "" else [s[0]]) + Without(s[1..], c)
  }

  lemma {:induction false} WithoutConcat(s: string, t: string, c: char)
    ensures Without(s + t, c) == Without(s, c) + Without(t, c)
  {
    if s == "" {
      assert s + t == t;
    } else {
      var first := if s[0] == c then "" else [s[0]];
      WithoutConcat(s[1..], t, c);
      assert (s + t)[1..] == s[1..] + t;
      var a, b := Without(s[1..], c), Without(t, c);
      assert first + (a + b) == first + a + b;
    }
  }

  lemma {:induction false} WithoutAbsent(s: string, c: char)
    requires c !in s
    ensures Without(s, c) == s
  {
    if s != "" {
      WithoutAbsent(s[1..], c);
    }
  }

  lemma WithoutFirst(s: string, c: char, p: nat)
    requires p < |s| && s[p] == c
    ensures Without(s, c) == Without(s[..p], c) + Without(s[p + 1..], c)
  {
    assert s == s[..p] + s[p..];
    WithoutConcat(s[..p], s[p..], c);
    assert s[p..][1..] == s[p + 1..];
  }

  lemma {:induction false} RemovedIsWithout(s: string, c: char)
    ensures Removed(s, [c]) == Without(s, c)
    decreases |s|
  {
    var p := Find(s, [c]);
    FreeOfChar(s, c);
    if p == |s| {
      WithoutAbsent(s, c);
    } else {
      assert s[p..p + 1] == [c];
      RemovedIsWithout(s[..p] + s[p + 1..], c);
      WithoutFirst(s, c, p);
      WithoutConcat(s[..p], s[p + 1..], c);
    }
  }

  lemma FindChar(s: string, c: char)
    ensures var p := Find(s, [c]); c !in s[..p] && (p < |s| ==> s[p] == c)
  {
    var p := Find(s, [c]);
    if p < |s| {
      assert s[p..p + 1][0] == s[p];
    }
    forall q | 0 <= q < p
      ensures s[q] != c
    {
      assert s[q..q + 1] == [s[q]];
      assert !OccursAt(s, [c], q);
    }
  }

  lemma FlatCons(a: string, ps: seq<string>)
    ensures Flat([a] + ps) == a + Flat(ps)
  {
    assert ([a] + ps)[1..] == ps;
  }

  /** For one character, removing it is the same as splitting at it and putting the
      pieces together with nothing between. */
  lemma {:induction false} FlatPieces(s: string, c: char)
    ensures Flat(Pieces(s, [c])) == Removed(s, [c])
    decreases |s|
  {
    hide Find, Flat, Without, Removed;
    var p := Find(s, [c]);
    RemovedIsWithout(s, c);
    FindChar(s, c);
    WithoutAbsent(s[..p], c);
    if p == |s| {
      assert s[..p] == s && [s] == [s] + [];
      FlatCons(s, []);
      FlatNone();
    } else {
      FlatPieces(s[p + 1..], c);
      RemovedIsWithout(s[p + 1..], c);
      WithoutFirst(s, c, p);
      FlatCons(s[..p], Pieces(s[p + 1..], [c]));
    }
  }

  lemma FlatNone()
    ensures Flat([]) == ""
  {
  }

  // ---------- the operations ----------

  lemma OccursFrom(s: string, key: string, beg: nat, q: nat)
    requires beg + q <= |s|
    ensures OccursAt(s[beg..], key, q) <==> OccursAt(s, key, beg + q)
  {
    if beg + q + |key| <= |s| {
      assert s[beg..][q..q + |key|] == s[beg + q..beg + q + |key|];
    }
  }

  lemma FindInRest(s: string, key: string, beg: nat)
    requires key != "" && beg <= |s|
    ensures FindFrom(s, key, beg) == beg + Find(s[beg..], key)
  {
    hide OccursAt, Find, FindFrom;
    var pos, p := FindFrom(s, key, beg), Find(s[beg..], key);
    OccursFrom(s, key, beg, p);
    OccursFrom(s, key, beg, pos - beg);
  }

  lemma PiecesFrom(s: string, key: string, beg: nat)
    requires key != "" && beg <= |s|
    ensures var pos := FindFrom(s, key, beg);
            && (pos < |s| ==> pos + |key| <= |s|)
            && Pieces(s[beg..], key) ==
               if pos == |s| then [s[beg..]] else [s[beg..pos]] + Pieces(s[pos + |key|..], key)
  {
    hide Find, FindFrom;
    var t, pos := s[beg..], FindFrom(s, key, beg);
    FindInRest(s, key, beg);
    if pos < |s| {
      assert t[..pos - beg] == s[beg..pos];
      assert t[pos - beg + |key|..] == s[pos + |key|..];
    }
  }

  /** `res` is added to. */
  method Split(s: string, key: string, res: seq<string>, beg: nat) returns (error: Error, pieces: seq<string>)
    ensures error == Splitting(s, key, beg).error
    ensures pieces == res + Splitting(s, key, beg).pieces
  {
    hide OccursAt, Pieces, FindFrom;
    pieces := res;
    if s == "" || key == "" {
      return InvalidParameter, pieces;
    }
    if beg > |s| {
      return OutOfRange, pieces;
    }
    var start := beg;
    var pos := FindFrom(s, key, start);
    while pos < |s|
      invariant start <= |s| && pos == FindFrom(s, key, start)
      invariant pieces + Pieces(s[start..], key) == res + Pieces(s[beg..], key)
      decreases |s| - start
    {
      PiecesFrom(s, key, start);
      ghost var rest := Pieces(s[pos + |key|..], key);
      assert pieces + ([s[start..pos]] + rest) == pieces + [s[start..pos]] + rest;
      pieces := pieces + [s[start..pos]];
      start := pos + |key|;
      pos := FindFrom(s, key, start);
    }
    PiecesFrom(s, key, start);
    pieces := pieces + [s[start..]];
    return NoError, pieces;
  }

  lemma {:induction false} JoinedConcat(ps: seq<string>, p: string, l: string)
    ensures Joined(ps + [p], l) == Joined(ps, l) + p + l
  {
    if ps == [] {
      assert Joined([p], l) == p + l + Joined([], l);
    } else {
      JoinedConcat(ps[1..], p, l);
      assert (ps + [p])[1..] == ps[1..] + [p];
    }
  }

  method V2Str(strs: seq<string>, l: string) returns (res: string)
    ensures res == Text(strs, l)
  {
    res := "";
    for i := 0 to |strs|
      invariant res == Joined(strs[..i], l)
    {
      JoinedConcat(strs[..i], strs[i], l);
      assert strs[..i + 1] == strs[..i] + [strs[i]];
      res := res + strs[i];
      res := res + l;
    }
    assert strs[..|strs|] == strs;
    if l != "" && res != "" {
      res := res[..|res| - 1];
    }
  }

  method Remove(src: string, key: string) returns (ok: bool, res: string)
    ensures ok <==> key != "" && Contains(src, key)
    ensures res == if ok then var p := Find(src, key); src[..p] + src[p + |key|..] else src
  {
    if src == "" || key == "" {
      return false, src;
    }
    var pos := Find(src, key);
    if pos == |src| {
      return false, src;
    }
    return true, src[..pos] + src[pos + |key|..];
  }

  method Removes(src: string, key: string) returns (res: string)
    ensures res == if key == "" then src else Removed(src, key)
  {
    var ok;
    ok, res := Remove(src, key);
    while ok
      invariant ok ==> key != ""
      invariant key == "" ==> res == src
      invariant key != "" ==> Removed(res, key) == Removed(src, key)
      invariant key != "" && !ok ==> !Contains(res, key)
      decreases |res|, ok
    {
      ok, res := Remove(res, key);
    }
  }
}
