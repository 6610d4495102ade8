/**
 * The `connectorIds` announcement property: a comma-separated list of
 * connector ids. Reading it follows Guava's
 * `Splitter.on(',').trimResults().omitEmptyStrings()`, the ids are loaded
 * into a `LinkedHashSet` (insertion order, no duplicates), and writing it
 * follows `Joiner.on(',')`.
 */
module ConnectorIds {

  const Separator: char := ','

  /** The characters Guava's `CharMatcher.whitespace()` matches, by code point. */
  predicate IsWhitespace(c: char)
    ensures c == ' ' || c == '\t' || c == '\n' || c == '\r' ==> IsWhitespace(c)
    ensures IsWhitespace(c) ==> c != Separator && !('0' <= c <= '9') && !('A' <= c <= 'Z') && !('a' <= c <= 'z')
  {
    var n := c as int;
    n == 0x09 || n == 0x0A || n == 0x0B || n == 0x0C || n == 0x0D || n == 0x20 ||
    n == 0x85 || n == 0xA0 || n == 0x1680 || (0x2000 <= n <= 0x200A) ||
    n == 0x2028 || n == 0x2029 || n == 0x202F || n == 0x205F || n == 0x3000
  }

  /** Neither starts nor ends with whitespace. */
  predicate IsTrimmed(s: string)
  {
    s == [] || (!IsWhitespace(s[0]) && !IsWhitespace(s[|s| - 1]))
  }

  /** A token that survives a split-and-join unchanged. */
  predicate IsToken(t: string)
  {
    t != [] && IsTrimmed(t) && Separator !in t
  }

  predicate NoDuplicates(xs: seq<string>)
  {
    forall i, j :: 0 <= i < j < |xs| ==> xs[i] != xs[j]
  }

  function TrimLeft(s: string): (r: string)
    ensures r == [] || !IsWhitespace(r[0])
    ensures |r| <= |s| && r == s[|s| - |r|..]
    ensures forall k :: 0 <= k < |s| - |r| ==> IsWhitespace(s[k])
  {
    if s != [] && IsWhitespace(s[0]) then TrimLeft(s[1..]) else s
  }

  function TrimRight(s: string): (r: string)
    ensures r == [] || !IsWhitespace(r[|r| - 1])
    ensures |r| <= |s| && r == s[..|r|]
    ensures forall k :: |r| <= k < |s| ==> IsWhitespace(s[k])
  {
    if s != [] && IsWhitespace(s[|s| - 1]) then TrimRight(s[..|s| - 1]) else s
  }

  /** `r` is the slice `s[i..j]` and every character of `s` outside it is whitespace. */
  predicate WhitespaceAround(s: string, r: string, i: int, j: int)
  {
    0 <= i <= j <= |s| && r == s[i..j] &&
    (forall k :: 0 <= k < i ==> IsWhitespace(s[k])) &&
    (forall k :: j <= k < |s| ==> IsWhitespace(s[k]))
  }

  /**
   * Guava's `trimResults()`: the result is the slice of `s` left after
   * dropping only whitespace on either side, and it neither starts nor ends
   * with whitespace.
   */
  function Trim(s: string): (r: string)
    ensures IsTrimmed(r)
    ensures exists i, j :: WhitespaceAround(s, r, i, j)
    ensures IsTrimmed(s) ==> r == s
    ensures forall c :: c in r ==> c in s
  {
    TrimIsSlice(s);
    TrimRight(TrimLeft(s))
  }

  lemma TrimIsSlice(s: string)
    ensures exists i, j :: WhitespaceAround(s, TrimRight(TrimLeft(s)), i, j)
  {
    var left := TrimLeft(s);
    var r := TrimRight(left);
    var i := |s| - |left|;
    var j := i + |r|;
    assert r == s[i..j];
    forall k | j <= k < |s| ensures IsWhitespace(s[k]) {
      assert s[k] == left[k - i];
    }
    assert WhitespaceAround(s, r, i, j);
  }

  /** `Splitter.on(',')` alone: every piece between separators, empty ones included. */
  function Pieces(s: string): (r: seq<string>)
    ensures |r| >= 1
    ensures forall p :: p in r ==> Separator !in p
  {
    if s == [] then [[]]
    else
      var rest := Pieces(s[1..]);
      if s[0] == Separator then [[]] + rest
      else [[s[0]] + rest[0]] + rest[1..]
  }

  /** `trimResults().omitEmptyStrings()` applied to the pieces, in order. */
  function TrimAndOmitEmpty(pieces: seq<string>): (r: seq<string>)
    ensures forall t :: t in r ==> t != [] && IsTrimmed(t)
    ensures (forall p :: p in pieces ==> Separator !in p) ==> forall t :: t in r ==> Separator !in t
    ensures |r| <= |pieces|
    ensures forall p :: p in pieces && Trim(p) != [] ==> Trim(p) in r
  {
    if pieces == [] then []
    else
      var t := Trim(pieces[0]);
      if t == [] then TrimAndOmitEmpty(pieces[1..]) else [t] + TrimAndOmitEmpty(pieces[1..])
  }

  /** The ids a `connectorIds` value lists: split on ',', trim, drop empties. */
  function Parse(s: string): (r: seq<string>)
    ensures forall t :: t in r ==> IsToken(t)
    ensures forall p :: p in Pieces(s) && Trim(p) != [] ==> Trim(p) in r
  {
    TrimAndOmitEmpty(Pieces(s))
  }

  /** `Joiner.on(',')`: the ids in order, one comma between neighbours. */
  function Join(ids: seq<string>): (r: string)
    ensures |ids| >= 1 ==> ids[0] <= r
    ensures |ids| >= 2 ==> ids[0] + [Separator] <= r
  {
    if |ids| == 0 then []
    else if |ids| == 1 then ids[0]
    else ids[0] + [Separator] + Join(ids[1..])
  }

  /** Comma-free ids are separated by exactly one comma each. */
  lemma {:induction false} JoinSeparators(ids: seq<string>)
    requires forall t :: t in ids ==> Separator !in t
    ensures multiset(Join(ids))[Separator] == if ids == [] then 0 else |ids| - 1
  {
    if |ids| == 1 {
      assert Separator !in ids[0];
      assert multiset(ids[0])[Separator] == 0;
    } else if |ids| > 1 {
      var rest := Join(ids[1..]);
      assert forall t :: t in ids[1..] ==> t in ids;
      JoinSeparators(ids[1..]);
      assert Separator !in ids[0];
      assert multiset(ids[0])[Separator] == 0;
      assert multiset(ids[0] + [Separator] + rest) == multiset(ids[0]) + multiset([Separator]) + multiset(rest);
    }
  }

  /** `LinkedHashSet.add`: an element already present keeps its place. */
  function Insert(xs: seq<string>, x: string): (r: seq<string>)
    ensures forall y :: y in r <==> y in xs || y == x
    ensures |xs| <= |r| <= |xs| + 1 && r[..|xs|] == xs
    ensures x in xs <==> r == xs
    ensures NoDuplicates(xs) ==> NoDuplicates(r)
  {
    if x in xs then xs else xs + [x]
  }

  /** `new LinkedHashSet<>(list)`: the elements added one by one, in list order. */
  function FromList(xs: seq<string>): (r: seq<string>)
    ensures NoDuplicates(r)
    ensures forall y :: y in r <==> y in xs
    ensures |r| <= |xs|
  {
    if xs == [] then []
    else
      var init := xs[..|xs| - 1];
      assert xs == init + [xs[|xs| - 1]];
      Insert(FromList(init), xs[|xs| - 1])
  }

  /** The new `connectorIds` value after adding `id` to the value `property`. */
  function AddConnectorId(property: string, id: string): (r: string)
    ensures Parse(property) == [] ==> r == id
    ensures IsToken(id) ==> Parse(r) == Insert(FromList(Parse(property)), id)
  {
    var ids := Insert(FromList(Parse(property)), id);
    if IsToken(id) then ParseJoin(ids); Join(ids) else Join(ids)
  }

  /** Position of the first occurrence of `x` in `xs`. */
  function FirstIndex(xs: seq<string>, x: string): (i: nat)
    requires x in xs
    ensures i < |xs| && xs[i] == x && x !in xs[..i]
  {
    if xs[0] == x then 0
    else
      assert x in xs[1..];
      var i := 1 + FirstIndex(xs[1..], x);
      assert xs[..i] == [xs[0]] + xs[1..][..i - 1];
      i
  }

  // ---------------------------------------------------------------------
  // Split/join round trip
  // ---------------------------------------------------------------------

  lemma {:induction false} PiecesOfPrefix(a: string, t: string)
    requires Separator !in a
    ensures Pieces(a + t) == [a + Pieces(t)[0]] + Pieces(t)[1..]
  {
    if a == [] {
      assert a + t == t;
      assert a + Pieces(t)[0] == Pieces(t)[0];
      assert Pieces(t) == [Pieces(t)[0]] + Pieces(t)[1..];
    } else {
      PiecesOfPrefix(a[1..], t);
      assert (a + t)[1..] == a[1..] + t;
      assert [a[0]] + (a[1..] + Pieces(t)[0]) == a + Pieces(t)[0];
    }
  }

  /** Splitting a join of comma-free pieces gives the pieces back, empty ones included. */
  lemma {:induction false} PiecesOfJoin(ids: seq<string>)
    requires |ids| >= 1
    requires forall t :: t in ids ==> Separator !in t
    ensures Pieces(Join(ids)) == ids
  {
    if |ids| == 1 {
      PiecesOfPrefix(ids[0], []);
      assert ids[0] + [] == ids[0];
    } else {
      var rest := Join(ids[1..]);
      PiecesOfJoin(ids[1..]);
      PiecesOfPrefix(ids[0], [Separator] + rest);
      assert ([Separator] + rest)[1..] == rest;
      assert Pieces([Separator] + rest) == [[]] + Pieces(rest);
      assert ids[0] + [] == ids[0];
      assert ids[0] + [Separator] + rest == ids[0] + ([Separator] + rest);
      assert ids == [ids[0]] + ids[1..];
    }
  }

  lemma JoinCons(a: string, rest: seq<string>)
    requires |rest| >= 1
    ensures Join([a] + rest) == a + [Separator] + Join(rest)
  {
    assert ([a] + rest)[1..] == rest;
  }

  lemma ConsAssociates(c: char, a: string, t: string)
    ensures [c] + a + [Separator] + t == [c] + (a + [Separator] + t)
  {
    assert [c] + a + [Separator] + t == [c] + (a + ([Separator] + t));
  }

  lemma JoinExtendFirst(c: char, rest: seq<string>)
    requires |rest| >= 1
    ensures Join([[c] + rest[0]] + rest[1..]) == [c] + Join(rest)
  {
    var head := [c] + rest[0];
    var xs := [head] + rest[1..];
    assert |xs| == |rest| && xs[0] == head && xs[1..] == rest[1..];
    if |rest| > 1 {
      var tail := Join(rest[1..]);
      assert Join(xs) == head + [Separator] + tail;
      assert Join(rest) == rest[0] + [Separator] + tail;
      ConsAssociates(c, rest[0], tail);
    }
  }

  /** Joining the pieces of a value gives the value back. */
  lemma {:induction false} JoinPieces(s: string)
    ensures Join(Pieces(s)) == s
  {
    if s != [] {
      var rest := Pieces(s[1..]);
      JoinPieces(s[1..]);
      if s[0] == Separator {
        JoinCons([], rest);
      } else {
        JoinExtendFirst(s[0], rest);
      }
      assert s == [s[0]] + s[1..];
    }
  }

  lemma {:induction false} TrimAndOmitEmptyOfTokens(ids: seq<string>)
    requires forall t :: t in ids ==> t != [] && IsTrimmed(t)
    ensures TrimAndOmitEmpty(ids) == ids
  {
    if ids != [] {
      var rest := ids[1..];
      assert ids[0] in ids;
      assert Trim(ids[0]) == ids[0];
      assert forall t :: t in rest ==> t in ids;
      TrimAndOmitEmptyOfTokens(rest);
      assert TrimAndOmitEmpty(ids) == [ids[0]] + TrimAndOmitEmpty(rest);
      assert ids == [ids[0]] + rest;
    }
  }

  /** The tokens of a leading piece come before those of the rest. */
  lemma TrimAndOmitEmptyCons(p: string, rest: seq<string>)
    ensures TrimAndOmitEmpty([p] + rest) == TrimAndOmitEmpty([p]) + TrimAndOmitEmpty(rest)
  {
    var ps := [p] + rest;
    assert ps[0] == p && ps[1..] == rest;
    assert [p][0] == p && [p][1..] == [];
    var t := Trim(p);
    assert TrimAndOmitEmpty([]) == [];
    if t == [] {
      assert TrimAndOmitEmpty([p]) == [];
      assert TrimAndOmitEmpty(ps) == TrimAndOmitEmpty(rest);
    } else {
      assert TrimAndOmitEmpty([p]) == [t];
      assert TrimAndOmitEmpty(ps) == [t] + TrimAndOmitEmpty(rest);
    }
  }

  /** A single piece yields its trimmed form, or nothing when it is blank. */
  lemma TrimAndOmitEmptySingle(p: string)
    ensures TrimAndOmitEmpty([p]) == if Trim(p) == [] then [] else [Trim(p)]
  {
    assert [p][1..] == [];
  }

  lemma AppendAssociates<T>(x: seq<T>, y: seq<T>, z: seq<T>)
    ensures x + (y + z) == (x + y) + z
  {
    assert |x + (y + z)| == |(x + y) + z|;
    forall k | 0 <= k < |x + (y + z)| ensures (x + (y + z))[k] == ((x + y) + z)[k] {
    }
  }

  /** Trimming and dropping blanks works piece by piece: it distributes over concatenation. */
  lemma {:induction false} TrimAndOmitEmptyAppend(a: seq<string>, b: seq<string>)
    ensures TrimAndOmitEmpty(a + b) == TrimAndOmitEmpty(a) + TrimAndOmitEmpty(b)
  {
    if a == [] {
      assert a + b == b;
    } else {
      var head, tail := a[0], a[1..];
      assert a == [head] + tail;
      assert a + b == [head] + (tail + b);
      TrimAndOmitEmptyCons(head, tail + b);
      TrimAndOmitEmptyCons(head, tail);
      TrimAndOmitEmptyAppend(tail, b);
      var x, y, z := TrimAndOmitEmpty([head]), TrimAndOmitEmpty(tail), TrimAndOmitEmpty(b);
      AppendAssociates(x, y, z);
    }
  }

  /** A value without commas is one piece: it lists its trimmed form, or nothing when blank. */
  lemma ParseOfCommaFree(s: string)
    requires Separator !in s
    ensures Parse(s) == if Trim(s) == [] then [] else [Trim(s)]
  {
    PiecesOfPrefix(s, []);
    assert s + [] == s;
    assert Pieces([]) == [[]];
    assert Pieces(s) == [s];
    TrimAndOmitEmptySingle(s);
  }

  /** Splitting at a comma splits the pieces: those of the left part, then those of the right. */
  lemma {:induction false} PiecesOfSeparated(a: string, b: string)
    ensures Pieces(a + [Separator] + b) == Pieces(a) + Pieces(b)
  {
    var s := a + [Separator] + b;
    if a == [] {
      assert s == [Separator] + b;
      assert s[1..] == b;
    } else {
      assert s[0] == a[0];
      assert s[1..] == a[1..] + [Separator] + b;
      PiecesOfSeparated(a[1..], b);
      var rest, after := Pieces(a[1..]), Pieces(b);
      if a[0] == Separator {
        assert Pieces(s) == [[]] + (rest + after);
        assert Pieces(a) == [[]] + rest;
        AppendAssociates([[]], rest, after);
      } else {
        var head := [a[0]] + rest[0];
        assert (rest + after)[0] == rest[0];
        assert (rest + after)[1..] == rest[1..] + after;
        assert Pieces(s) == [head] + (rest[1..] + after);
        assert Pieces(a) == [head] + rest[1..];
        AppendAssociates([head], rest[1..], after);
      }
    }
  }

  /**
   * Reading a value whose parts are separated by a comma reads each part in
   * turn: the ids keep the order of the value and come from nowhere else.
   */
  lemma ParseOfSeparated(a: string, b: string)
    ensures Parse(a + [Separator] + b) == Parse(a) + Parse(b)
  {
    PiecesOfSeparated(a, b);
    TrimAndOmitEmptyAppend(Pieces(a), Pieces(b));
  }

  /** Re-splitting a joined list of well-formed tokens gives the same list. */
  lemma ParseJoin(ids: seq<string>)
    requires forall t :: t in ids ==> IsToken(t)
    ensures Parse(Join(ids)) == ids
  {
    if ids == [] {
      ParseOfEmpty();
    } else {
      assert forall t :: t in ids ==> Separator !in t;
      PiecesOfJoin(ids);
      assert Pieces(Join(ids)) == ids;
      assert forall t :: t in ids ==> t != [] && IsTrimmed(t);
      TrimAndOmitEmptyOfTokens(ids);
    }
  }

  // ---------------------------------------------------------------------
  // The insertion-ordered set
  // ---------------------------------------------------------------------

  /** A duplicate-free list is loaded into the set unchanged. */
  lemma {:induction false} FromListOfDistinct(xs: seq<string>)
    requires NoDuplicates(xs)
    ensures FromList(xs) == xs
  {
    if xs != [] {
      var init := xs[..|xs| - 1];
      FromListOfDistinct(init);
      assert xs[|xs| - 1] !in init;
      assert xs == init + [xs[|xs| - 1]];
    }
  }

  lemma {:induction false} FirstIndexOfExtension(xs: seq<string>, y: string, z: string)
    requires z in xs
    ensures FirstIndex(xs + [y], z) == FirstIndex(xs, z)
  {
    if xs[0] != z {
      assert z in xs[1..];
      FirstIndexOfExtension(xs[1..], y, z);
      assert (xs + [y])[1..] == xs[1..] + [y];
    }
  }

  /** Loading a list keeps the ids in the order of their first occurrences. */
  lemma {:induction false} FromListKeepsFirstOccurrenceOrder(xs: seq<string>, i: nat, j: nat)
    requires i < j < |FromList(xs)|
    ensures FirstIndex(xs, FromList(xs)[i]) < FirstIndex(xs, FromList(xs)[j])
  {
    var init, y := xs[..|xs| - 1], xs[|xs| - 1];
    assert xs == init + [y];
    var f := FromList(init);
    var r := FromList(xs);
    assert r == Insert(f, y);
    assert r[i] in f by { if j < |f| { assert r[i] == f[i]; } else { assert r[i] == f[i]; } }
    assert r[i] in init;
    FirstIndexOfExtension(init, y, r[i]);
    if j < |f| {
      assert r[j] == f[j] && r[i] == f[i];
      FromListKeepsFirstOccurrenceOrder(init, i, j);
      FirstIndexOfExtension(init, y, r[j]);
    } else {
      assert r[j] == y && y !in init;
      assert xs[..|xs| - 1] == init;
      assert FirstIndex(xs, y) == |init|;
    }
  }

  /** In a duplicate-free list every member occurs exactly once. */
  lemma {:induction false} OccursOnce(xs: seq<string>, x: string)
    requires NoDuplicates(xs) && x in xs
    ensures multiset(xs)[x] == 1
  {
    if xs[0] == x {
      assert x !in xs[1..];
      assert xs == [xs[0]] + xs[1..];
    } else {
      assert x in xs[1..];
      OccursOnce(xs[1..], x);
      assert xs == [xs[0]] + xs[1..];
    }
  }

  // ---------------------------------------------------------------------
  // The connectorIds update
  // ---------------------------------------------------------------------

  /**
   * The written value lists the previous ids, duplicates collapsed, in
   * first-occurrence order, followed by `id` if it was not among them; `id`
   * occurs in it exactly once and every piece of it is a well-formed token.
   */
  lemma AddConnectorIdListsIds(property: string, id: string)
    requires IsToken(id)
    ensures var before := FromList(Parse(property));
            var after := Parse(AddConnectorId(property, id));
            && after == Insert(before, id)
            && (id in Parse(property) ==> after == before)
            && (id !in Parse(property) ==> after == before + [id])
            && NoDuplicates(after)
            && multiset(after)[id] == 1
    ensures forall p :: p in Pieces(AddConnectorId(property, id)) ==> IsToken(p)
  {
    var before := FromList(Parse(property));
    var ids := Insert(before, id);
    assert forall t :: t in ids ==> IsToken(t);
    ParseJoin(ids);
    OccursOnce(ids, id);
    if ids != [] {
      PiecesOfJoin(ids);
    }
  }

  /** Adding the same id twice gives the same value as adding it once. */
  lemma AddConnectorIdIdempotent(property: string, id: string)
    requires IsToken(id)
    ensures AddConnectorId(AddConnectorId(property, id), id) == AddConnectorId(property, id)
  {
    var ids := Insert(FromList(Parse(property)), id);
    var once := AddConnectorId(property, id);
    assert once == Join(ids);
    assert Parse(once) == ids;
    FromListOfDistinct(ids);
    assert Insert(FromList(Parse(once)), id) == ids;
  }

  /** The empty value lists no ids. */
  lemma ParseOfEmpty()
    ensures Parse("") == []
  {
  }

  /**
   * The added id is read back from the written value exactly when it is a
   * well-formed token: an id that is empty, has surrounding whitespace or
   * contains a comma is lost or split apart by the next read.
   */
  lemma AddedIdReadBackIffToken(property: string, id: string)
    ensures id in Parse(AddConnectorId(property, id)) <==> IsToken(id)
  {
    if IsToken(id) {
      AddConnectorIdListsIds(property, id);
    }
  }
}
