/** The alphabet of grid_synth: a registry of symbols keyed by id, kept in
    ascending id order, plus the two reserved sentinel symbols. */
module Alphabets {

  datatype Symbol = Symbol(id: int, name: string)

  /** "Nothing here". A constant, never registered by the alphabet itself. */
  const EmptySymbol := Symbol(0, "empty")

  /** "Matches anything" in a search pattern and "leave unchanged" in a
      replacement pattern. A constant, never registered by the alphabet itself. */
  const WildcardSymbol := Symbol(-1, "wildcard")

  /** The failure of a lookup of an id that is not registered. */
  datatype Error = OutOfRange(id: int)

  datatype Result<T> = Ok(value: T) | Err(error: Error)

  /** Every symbol of the registry is stored under its own id. */
  ghost predicate Consistent(m: map<int, Symbol>) {
    forall id :: id in m ==> m[id].id == id
  }

  lemma NonEmptyHasMember(keys: set<int>)
    requires keys != {}
    ensures exists x :: x in keys
  {
    assert (forall x :: x !in keys) ==> keys == {};
  }

  /** The smallest id of a non-empty set of ids. */
  ghost function MinKey(keys: set<int>): (k: int)
    requires keys != {}
    ensures k in keys
    ensures forall j :: j in keys ==> k <= j
  {
    NonEmptyHasMember(keys);
    var x :| x in keys;
    var rest := keys - {x};
    assert forall j :: j in keys ==> j == x || j in rest;
    if rest == {} then x
    else
      var m := MinKey(rest);
      if x <= m then x else m
  }

  /** The symbols of a registry in ascending id order, the order in which an
      ordered map is traversed. */
  ghost function Listing(m: map<int, Symbol>): (r: seq<Symbol>)
    ensures |r| == |m|
    decreases |m|
  {
    if m == map[] then []
    else
      var k := MinKey(m.Keys);
      assert (m - {k}).Keys == m.Keys - {k};
      [m[k]] + Listing(m - {k})
  }

  /** One step of the listing: the smallest registered symbol comes first,
      then the listing of the others. */
  lemma ListingStep(m: map<int, Symbol>) returns (k: int, rest: map<int, Symbol>)
    requires Consistent(m) && m != map[]
    ensures k == MinKey(m.Keys) && rest == m - {k}
    ensures k in m && rest.Keys == m.Keys - {k} && |rest| < |m|
    ensures Consistent(rest)
    ensures Listing(m) == [m[k]] + Listing(rest)
  {
    k := MinKey(m.Keys);
    rest := m - {k};
    assert rest.Keys == m.Keys - {k};
  }

  /** The listing starts with the symbol of the smallest registered id. */
  lemma ListingFirst(m: map<int, Symbol>, k: int)
    requires Consistent(m) && k in m
    requires forall j :: j in m ==> k <= j
    ensures Consistent(m - {k})
    ensures Listing(m) == [m[k]] + Listing(m - {k})
  {
    var k', rest := ListingStep(m);
    assert k <= k' && k' <= k;
  }

  /** A symbol is listed exactly when it is the one registered under its id. */
  lemma {:induction false} ListingMembers(m: map<int, Symbol>)
    requires Consistent(m)
    ensures forall s :: s in Listing(m) <==> s.id in m && m[s.id] == s
    decreases |m|
  {
    if m != map[] {
      var k, rest := ListingStep(m);
      ListingMembers(rest);
    }
  }

  /** An id is registered exactly when a listed symbol carries it. */
  lemma ListedIds(m: map<int, Symbol>, id: int)
    ensures Consistent(m) ==> (id in m <==> exists s :: s in Listing(m) && s.id == id)
  {
    if Consistent(m) {
      ListingMembers(m);
      if id in m {
        assert m[id] in Listing(m);
      }
    }
  }

  /** Strictly ascending ids: no id appears twice. */
  ghost predicate Ascending(r: seq<Symbol>) {
    forall a, b :: 0 <= a < b < |r| ==> r[a].id < r[b].id
  }

  lemma ConsAscending(x: Symbol, tail: seq<Symbol>)
    requires Ascending(tail)
    requires forall b :: 0 <= b < |tail| ==> x.id < tail[b].id
    ensures Ascending([x] + tail)
  {
    var r := [x] + tail;
    forall a, b | 0 <= a < b < |r| ensures r[a].id < r[b].id {
      assert r[b] == tail[b - 1];
      if a > 0 {
        assert r[a] == tail[a - 1];
      }
    }
  }

  /** The listing is in strictly ascending id order. */
  lemma {:induction false} ListingAscending(m: map<int, Symbol>)
    requires Consistent(m)
    ensures Ascending(Listing(m))
    decreases |m|
  {
    if m != map[] {
      var k, rest := ListingStep(m);
      ListingAscending(rest);
      ListingMembers(rest);
      var tail := Listing(rest);
      forall b | 0 <= b < |tail| ensures m[k].id < tail[b].id {
        var id := tail[b].id;
        assert tail[b] in tail;
        assert id in rest.Keys;
        assert id in m.Keys && id != k;
      }
      ConsAscending(m[k], tail);
    }
  }

  /** The symbol registry. */
  class Alphabet {
    var symbols: map<int, Symbol>

    ghost predicate Valid()
      reads this
    {
      Consistent(symbols)
    }

    /** A new alphabet is empty: neither sentinel is registered. */
    constructor ()
      ensures Valid() && symbols == map[]
      ensures !HasSymbol(EmptySymbol.id) && !HasSymbol(WildcardSymbol.id)
    {
      symbols := map[];
    }

    /** Registers s unless its id is already taken: the first registration wins. */
    method AddSymbol(s: Symbol)
      requires Valid()
      modifies this
      ensures Valid()
      ensures s.id in old(symbols) ==> symbols == old(symbols)
      ensures s.id !in old(symbols) ==> symbols == old(symbols)[s.id := s]
    {
      if s.id !in symbols {
        symbols := symbols[s.id := s];
      }
    }

    /** Whether id is registered: exactly when some listed symbol carries it. */
    predicate HasSymbol(id: int)
      reads this
      ensures Valid() ==> (HasSymbol(id) <==> exists s :: s in Listing(symbols) && s.id == id)
    {
      ListedIds(symbols, id);
      id in symbols
    }

    /** Unregisters id; removing an id that is not registered changes nothing. */
    method RemoveSymbol(id: int)
      requires Valid()
      modifies this
      ensures Valid() && !HasSymbol(id)
      ensures symbols == old(symbols) - {id}
      ensures !old(HasSymbol(id)) ==> symbols == old(symbols)
    {
      symbols := symbols - {id};
    }

    /** The symbol registered under id, or OutOfRange when there is none. */
    function GetSymbol(id: int): (r: Result<Symbol>)
      reads this
      requires Valid()
      ensures r.Ok? <==> HasSymbol(id)
      ensures r.Ok? ==> r.value.id == id && r.value == symbols[id]
      ensures r.Err? ==> r.error == OutOfRange(id)
    {
      if id in symbols then Ok(symbols[id]) else Err(OutOfRange(id))
    }

    /** Lists the registered symbols, rebuilt on every call, by walking the
        registry from the smallest id upwards. */
    method GetSymbols() returns (r: seq<Symbol>)
      requires Valid()
      ensures r == Listing(symbols)
    {
      r := [];
      var rest := symbols;
      while rest != map[]
        invariant Consistent(rest)
        invariant r + Listing(rest) == Listing(symbols)
        decreases |rest|
      {
        var k := SmallestId(rest);
        ListingFirst(rest, k);
        assert (rest - {k}).Keys == rest.Keys - {k};
        assert r + Listing(rest) == (r + [rest[k]]) + Listing(rest - {k});
        r := r + [rest[k]];
        rest := rest - {k};
      }
    }
  }

  /** The smallest id registered in a non-empty registry, found by one pass
      over its ids. */
  method SmallestId(m: map<int, Symbol>) returns (k: int)
    requires m != map[]
    ensures k in m
    ensures forall j :: j in m ==> k <= j
  {
    assert m.Keys == {} ==> m == map[];
    NonEmptyHasMember(m.Keys);
    k :| k in m;
    var unseen := m.Keys - {k};
    while unseen != {}
      invariant k in m && unseen <= m.Keys
      invariant forall j :: j in m && j !in unseen ==> k <= j
      decreases unseen
    {
      NonEmptyHasMember(unseen);
      var j :| j in unseen;
      if j < k {
        k := j;
      }
      unseen := unseen - {j};
    }
  }
}
