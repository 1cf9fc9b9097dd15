/** What parsing a media type promises: tolerance, the first of duplicate names, and RFC 2231
    stitching that does not depend on the order of the parameters. */
module MediaTypeLaws {
  import opened Bytes
  import opened MediaType

  // ---------- tolerance ----------

  /** Whatever the value, `IsOkPMTError` accepts the error exactly when the value is not empty; then
      there are a type and a map. */
  lemma ParseIsTolerant(v: bytes)
    ensures IsOkPMTError(Parse(v).err) == None <==> v != []
    ensures IsOkPMTError(Parse(v).err) == None ==> Parse(v).mediatype != [] && Parse(v).params.Some?
    ensures v == [] ==> Parse(v) == Outcome([], None, Some(Plain(NoMediaType)))
  {
  }

  /** The error is nil exactly when the type needs no repair, no parameter is bad, and no name is
      repeated. */
  lemma NilErrorMeans(v: bytes)
    requires v != []
    ensures var (ps, ending) := ReadParams(v[TypeEnd(v)..]);
            Parse(v).err == None <==>
              CheckType(TrimSpace(Lower(v[..TypeEnd(v)]))).1 == None && ending != BadParam && AreDistinct(ps)
  {
    DuplicatesCounted(NO_TABLES, ReadParams(v[TypeEnd(v)..]).0);
  }

  // ---------- the first of duplicate names ----------

  /** The value of the first parameter with a name. */
  function First(ps: seq<Param>, key: bytes): Option<bytes> {
    if ps == [] then None else if ps[0].key == key then Some(ps[0].value) else First(ps[1..], key)
  }

  predicate AreDistinct(ps: seq<Param>) {
    forall i, j :: 0 <= i < j < |ps| ==> ps[i].key != ps[j].key
  }

  /** What the tables hold under a name, wherever it belongs. */
  function Lookup(t: Tables, key: bytes): Option<bytes> {
    match BaseName(key)
    case None => if key in t.params then Some(t.params[key]) else None
    case Some(base) => if base in t.pieces && key in t.pieces[base] then Some(t.pieces[base][key]) else None
  }

  /** Names are where they belong, and there is no base name without a piece. */
  ghost predicate IsSorted(t: Tables) {
    && (forall k :: k in t.params ==> BaseName(k) == None)
    && (forall b :: b in t.pieces ==> t.pieces[b] != map[])
    && (forall b, k :: b in t.pieces && k in t.pieces[b] ==> BaseName(k) == Some(b))
  }

  lemma CollectKeeps(t: Tables, p: Param, key: bytes)
    requires IsSorted(t)
    ensures IsSorted(Collect(t, p))
    ensures Lookup(Collect(t, p), key)
            == if Lookup(t, key).Some? then Lookup(t, key) else if key == p.key then Some(p.value) else None
    ensures Collect(t, p).duplicates == t.duplicates + (if Lookup(t, p.key).Some? then 1 else 0)
  {
  }

  /** The first of duplicate names wins. */
  lemma {:induction false} FirstWins(t: Tables, ps: seq<Param>, key: bytes)
    requires IsSorted(t)
    ensures IsSorted(CollectAll(t, ps))
    ensures Lookup(CollectAll(t, ps), key) == if Lookup(t, key).Some? then Lookup(t, key) else First(ps, key)
    decreases |ps|
  {
    if ps != [] {
      CollectKeeps(t, ps[0], key);
      FirstWins(Collect(t, ps[0]), ps[1..], key);
    }
  }

  lemma {:induction false} FirstFound(ps: seq<Param>, key: bytes)
    ensures First(ps, key).Some? ==> Param(key, First(ps, key).value) in ps
    ensures First(ps, key) == None ==> forall i :: 0 <= i < |ps| ==> ps[i].key != key
  {
    if ps != [] {
      FirstFound(ps[1..], key);
      assert forall i :: 0 < i < |ps| ==> ps[i] == ps[1..][i - 1];
    }
  }

  lemma {:induction false} DuplicatesCounted(t: Tables, ps: seq<Param>)
    requires IsSorted(t)
    ensures CollectAll(t, ps).duplicates >= t.duplicates
    ensures CollectAll(t, ps).duplicates == t.duplicates
            <==> AreDistinct(ps) && forall i :: 0 <= i < |ps| ==> Lookup(t, ps[i].key) == None
    decreases |ps|
  {
    if ps != [] {
      var t', rest := Collect(t, ps[0]), ps[1..];
      CollectKeeps(t, ps[0], ps[0].key);
      DuplicatesCounted(t', rest);
      forall i | 0 <= i < |rest|
        ensures Lookup(t', rest[i].key) == None <==> Lookup(t, rest[i].key) == None && rest[i].key != ps[0].key
      {
        CollectKeeps(t, ps[0], rest[i].key);
      }
      assert forall i :: 0 < i < |ps| ==> ps[i] == rest[i - 1];
    }
  }

  // ---------- order ----------

  /** Tables are determined by what they hold under each name. */
  lemma SameTables(t: Tables, u: Tables)
    requires IsSorted(t) && IsSorted(u) && forall k :: Lookup(t, k) == Lookup(u, k)
    ensures t.params == u.params && t.pieces == u.pieces
  {
    forall k
      ensures k in t.params <==> k in u.params
      ensures k in t.params ==> t.params[k] == u.params[k]
    {
      assert Lookup(t, k) == Lookup(u, k);
    }
    SameBases(t, u);
    SameBases(u, t);
    forall b | b in t.pieces
      ensures t.pieces[b] == u.pieces[b]
    {
      forall k
        ensures k in t.pieces[b] <==> k in u.pieces[b]
        ensures k in t.pieces[b] ==> t.pieces[b][k] == u.pieces[b][k]
      {
        assert Lookup(t, k) == Lookup(u, k);
      }
    }
  }

  lemma SameBases(t: Tables, u: Tables)
    requires IsSorted(t) && IsSorted(u) && forall k :: Lookup(t, k) == Lookup(u, k)
    ensures forall b :: b in t.pieces ==> b in u.pieces
  {
    forall b | b in t.pieces
      ensures b in u.pieces
    {
      var k :| k in t.pieces[b];
      assert Lookup(t, k) == Lookup(u, k);
    }
  }

  lemma FirstIsMember(ps: seq<Param>, key: bytes, value: bytes)
    requires AreDistinct(ps)
    ensures First(ps, key) == Some(value) <==> Param(key, value) in ps
  {
    FirstFound(ps, key);
    if Param(key, value) in ps {
      var i :| 0 <= i < |ps| && ps[i] == Param(key, value);
      assert First(ps, key).Some?;
      var j :| 0 <= j < |ps| && ps[j] == Param(key, First(ps, key).value);
    }
  }

  lemma SameFirst(ps: seq<Param>, qs: seq<Param>, key: bytes)
    requires AreDistinct(ps) && AreDistinct(qs) && forall p :: p in ps <==> p in qs
    ensures First(ps, key) == First(qs, key)
  {
    if First(ps, key).Some? {
      FirstIsMember(ps, key, First(ps, key).value);
      FirstIsMember(qs, key, First(ps, key).value);
    }
    if First(qs, key).Some? {
      FirstIsMember(ps, key, First(qs, key).value);
      FirstIsMember(qs, key, First(qs, key).value);
    }
  }

  /** The order of parameters with distinct names makes no difference to the map that is returned. */
  lemma OrderDoesNotMatter(ps: seq<Param>, qs: seq<Param>)
    requires AreDistinct(ps) && AreDistinct(qs) && forall p :: p in ps <==> p in qs
    ensures StitchAll(CollectAll(NO_TABLES, ps)) == StitchAll(CollectAll(NO_TABLES, qs))
  {
    var t, u := CollectAll(NO_TABLES, ps), CollectAll(NO_TABLES, qs);
    FirstWins(NO_TABLES, ps, []);
    FirstWins(NO_TABLES, qs, []);
    forall k
      ensures Lookup(t, k) == Lookup(u, k)
    {
      FirstWins(NO_TABLES, ps, k);
      FirstWins(NO_TABLES, qs, k);
      SameFirst(ps, qs, k);
    }
    SameTables(t, u);
  }

  // ---------- stitching ----------

  /** The first `n` pieces, one after the other. */
  function Pieces(m: Table, base: bytes, n: nat): bytes
    requires HasPiecesBelow(m, base, n)
  {
    if n == 0 then [] else Pieces(m, base, n - 1) + PieceText(m, base, n - 1)
  }

  lemma {:induction false} JoinedIsPieces(m: Table, base: bytes, n: nat, end: nat)
    requires n <= end && HasPiecesBelow(m, base, end) && !HasPiece(m, base, end)
    ensures Pieces(m, base, n) + Joined(m, base, n) == Pieces(m, base, end)
    decreases end - n
  {
    if n < end {
      JoinedIsPieces(m, base, n + 1, end);
      Assoc(Pieces(m, base, n), PieceText(m, base, n), Joined(m, base, n + 1));
    } else {
      assert Pieces(m, base, n) + [] == Pieces(m, base, n);
    }
  }

  /** There is a first missing piece. */
  lemma FirstMissing(m: Table, base: bytes, n: nat) returns (end: nat)
    requires HasPiecesBelow(m, base, n)
    ensures n <= end && HasPiecesBelow(m, base, end) && !HasPiece(m, base, end)
    decreases |m.Keys| - n
  {
    if HasPiece(m, base, n) {
      PiecesAreBounded(m, base, n + 1);
      end := FirstMissing(m, base, n + 1);
    } else {
      end := n;
    }
  }

  /** The value that a base name is stitched to: the decoded `name*` if there is one, or else the
      pieces 0 to `end` - 1, where `end` is the first index that is missing. */
  lemma StitchedMeaning(m: Table, base: bytes) returns (end: nat)
    ensures HasPiecesBelow(m, base, end) && !HasPiece(m, base, end)
    ensures Stitched(m, base)
            == if base + [STAR] in m then Some(Decode2231(m[base + [STAR]]))
               else if end > 0 then Some(Pieces(m, base, end))
               else None
  {
    end := FirstMissing(m, base, 0);
    JoinedIsPieces(m, base, 0, end);
    assert [] + Joined(m, base, 0) == Joined(m, base, 0);
  }

  /** Only the given parameters matter to a stitched value: what the table of a base name holds is
      what the first parameters with such names say. */
  lemma PiecesAreParams(ps: seq<Param>, base: bytes, key: bytes)
    requires BaseName(key) == Some(base)
    ensures var t := CollectAll(NO_TABLES, ps);
            && (base in t.pieces && key in t.pieces[base] <==> First(ps, key).Some?)
            && (First(ps, key).Some? ==> t.pieces[base][key] == First(ps, key).value)
  {
    FirstWins(NO_TABLES, ps, key);
  }

  /** A stitched value overrides the plain parameter of the same name; all other names stay as they are. */
  lemma StitchedOverrides(t: Tables, key: bytes)
    ensures var stitched := if key in t.pieces then Stitched(t.pieces[key], key) else None;
            && (key in StitchAll(t) <==> key in t.params || stitched.Some?)
            && (stitched.Some? ==> StitchAll(t)[key] == stitched.value)
            && (stitched == None && key in t.params ==> StitchAll(t)[key] == t.params[key])
  {
  }
}
