/** The in-memory store of patrons (src/PatronRepository.java): a map from id to
    patron that only `AddPatron` and `RemovePatron` change, and three queries
    whose list results are sorted by id. */
module Repository {
  import opened Wrappers
  import opened Text
  import opened Decimals
  import opened Patrons

  type Store = map<string, Patron>

  /** The store's invariant: each key is the id of the patron stored under it. */
  ghost predicate Keyed(m: Store) {
    forall k :: k in m ==> m[k].id == k
  }

  /** Every stored patron came out of the validating constructor: a Java `Patron`
      cannot exist otherwise. */
  ghost predicate AllWellFormed(m: Store) {
    forall k :: k in m ==> WellFormed(m[k])
  }

  // ---------------------------------------------------------------------
  // Insertion and removal on the map
  // ---------------------------------------------------------------------

  /** `addPatron`: a patron whose id is already a key is refused and the map is
      left alone; otherwise exactly that one entry is added. */
  function Insert(m: Store, p: Patron): (r: (Store, bool))
    ensures r.1 <==> p.id !in m
    ensures r.0.Keys == m.Keys + {p.id}
    ensures forall k :: k in m ==> r.0[k] == m[k]
    ensures r.1 ==> r.0[p.id] == p
    ensures |r.0| == |m| + (if r.1 then 1 else 0)
    ensures Keyed(m) ==> Keyed(r.0)
    ensures AllWellFormed(m) && WellFormed(p) ==> AllWellFormed(r.0)
  {
    if p.id in m then (m, false) else (m[p.id := p], true)
  }

  /** `removePatron`: reports whether the id was a key; afterwards it is not,
      and every other entry is as it was. */
  function Delete(m: Store, id: string): (r: (Store, bool))
    ensures r.1 <==> id in m
    ensures r.0.Keys == m.Keys - {id}
    ensures forall k :: k in r.0 ==> r.0[k] == m[k]
    ensures |r.0| == |m| - (if r.1 then 1 else 0)
    ensures Keyed(m) ==> Keyed(r.0)
    ensures AllWellFormed(m) ==> AllWellFormed(r.0)
  {
    (m - {id}, id in m)
  }

  // ---------------------------------------------------------------------
  // Ordering by id
  // ---------------------------------------------------------------------

  /** Ids strictly ascending in `compareTo` order, so no patron appears twice. */
  predicate AscendingIds(ps: seq<Patron>) {
    forall i, j :: 0 <= i < j < |ps| ==> Less(ps[i].id, ps[j].id)
  }

  predicate Ascending(ks: seq<string>) {
    forall i, j :: 0 <= i < j < |ks| ==> Less(ks[i], ks[j])
  }

  predicate IsLeast(k: string, keys: set<string>) {
    k in keys && forall j :: j in keys && j != k ==> Less(k, j)
  }

  lemma {:induction false} LeastExists(keys: set<string>)
    requires keys != {}
    ensures exists k :: IsLeast(k, keys)
    decreases |keys|
  {
    var x :| x in keys;
    var rest := keys - {x};
    if rest == {} {
      assert keys == {x};
      assert IsLeast(x, keys);
    } else {
      LeastExists(rest);
      var m :| IsLeast(m, rest);
      if Less(x, m) {
        forall j | j in keys && j != x
          ensures Less(x, j)
        {
          if j != m { LessTransitive(x, m, j); }
        }
        assert IsLeast(x, keys);
      } else {
        LessTotal(x, m);
        assert IsLeast(m, keys);
      }
    }
  }

  lemma LeastUnique(keys: set<string>)
    ensures forall a, b :: IsLeast(a, keys) && IsLeast(b, keys) ==> a == b
  {
    forall a, b | IsLeast(a, keys) && IsLeast(b, keys)
      ensures a == b
    {
      if a != b { LessTotal(a, b); }
    }
  }

  /** The smallest id among `keys`. */
  function MinKey(keys: set<string>): (k: string)
    requires keys != {}
    ensures IsLeast(k, keys)
  {
    LeastExists(keys);
    LeastUnique(keys);
    var k :| IsLeast(k, keys); k
  }

  /** The keys in ascending order, smallest first: each key exactly once. */
  function SortedKeys(keys: set<string>): (ks: seq<string>)
    ensures |ks| == |keys|
    ensures forall k :: k in ks <==> k in keys
    ensures Ascending(ks)
    decreases |keys|
  {
    if keys == {} then []
    else
      var k := MinKey(keys);
      var rest := SortedKeys(keys - {k});
      assert forall j :: 0 <= j < |rest| ==> Less(k, rest[j]) by {
        forall j | 0 <= j < |rest| ensures Less(k, rest[j]) {
          assert rest[j] in keys - {k};
        }
      }
      [k] + rest
  }

  /** Two id-ascending lists holding the same patrons are the same list: sorting
      then filtering gives what filtering then sorting gives. */
  lemma {:induction false} AscendingUnique(a: seq<Patron>, b: seq<Patron>)
    requires AscendingIds(a) && AscendingIds(b)
    requires forall p :: p in a <==> p in b
    ensures a == b
    decreases |a|
  {
    assert a == [] <==> b == [] by {
      if a != [] { assert a[0] in a; }
      if b != [] { assert b[0] in b; }
    }
    if a != [] {
      if a[0] != b[0] {
        assert a[0] in b && b[0] in a;
        var i :| 0 <= i < |a| && a[i] == b[0];
        var j :| 0 <= j < |b| && b[j] == a[0];
        assert Less(a[0].id, b[0].id);
        assert Less(b[0].id, a[0].id);
        LessTransitive(a[0].id, b[0].id, a[0].id);
        LessIrreflexive(a[0].id);
      }
      forall p | p in a[1..] ensures p in b[1..] {
        var i :| 0 <= i < |a[1..]| && a[1..][i] == p;
        assert Less(a[0].id, p.id);
        assert p != a[0] by { LessIrreflexive(a[0].id); }
        assert a[i + 1] == p && p in a && p in b;
        var j :| 0 <= j < |b| && b[j] == p;
        assert j != 0 && b[1..][j - 1] == p;
      }
      forall p | p in b[1..] ensures p in a[1..] {
        var j :| 0 <= j < |b[1..]| && b[1..][j] == p;
        assert Less(b[0].id, p.id);
        assert p != b[0] by { LessIrreflexive(b[0].id); }
        assert b[j + 1] == p && p in b && p in a;
        var i :| 0 <= i < |a| && a[i] == p;
        assert i != 0 && a[1..][i - 1] == p;
      }
      AscendingUnique(a[1..], b[1..]);
    }
  }

  /** The patrons stored under `ks`, in the order of `ks`. */
  function ValuesAt(m: Store, ks: seq<string>): (r: seq<Patron>)
    requires forall i :: 0 <= i < |ks| ==> ks[i] in m
    ensures |r| == |ks|
    ensures forall i :: 0 <= i < |ks| ==> r[i] == m[ks[i]]
  {
    if ks == [] then [] else [m[ks[0]]] + ValuesAt(m, ks[1..])
  }

  /** When `ks` holds every key, every stored patron is listed. */
  lemma ValuesAtCovers(m: Store, ks: seq<string>, r: seq<Patron>)
    requires forall k :: k in ks <==> k in m
    requires |r| == |ks| && forall i :: 0 <= i < |ks| ==> r[i] == m[ks[i]]
    ensures forall p :: p in r <==> p in m.Values
  {
    forall p | p in m.Values ensures p in r {
      var k :| k in m && m[k] == p;
      var i :| 0 <= i < |ks| && ks[i] == k;
      assert r[i] == p;
    }
  }

  // ---------------------------------------------------------------------
  // Case-insensitive name search
  // ---------------------------------------------------------------------

  /** `p.getName().toLowerCase().contains(query.toLowerCase())`. */
  predicate NameMatches(p: Patron, query: string)
    ensures NameMatches(p, query) ==> |query| <= |p.name|
  {
    Contains(Lower(p.name), Lower(query))
  }

  /** `a` is `b` with some elements left out, the rest in their order. */
  predicate IsSubsequence<T(==)>(a: seq<T>, b: seq<T>)
    decreases |b|
  {
    if a == [] then true
    else if b == [] then false
    else (a[0] == b[0] && IsSubsequence(a[1..], b[1..])) || IsSubsequence(a, b[1..])
  }

  /** The stream's `filter` step: the patrons that match, in their order. */
  function FilterByName(ps: seq<Patron>, query: string): (r: seq<Patron>)
    ensures forall p :: p in r <==> p in ps && NameMatches(p, query)
    ensures IsSubsequence(r, ps)
    ensures AscendingIds(ps) ==> AscendingIds(r)
  {
    if ps == [] then []
    else
      var rest := FilterByName(ps[1..], query);
      if NameMatches(ps[0], query) then
        HeadBelowRest(ps, rest);
        [ps[0]] + rest
      else
        rest
  }

  /** In an id-ascending list the head's id is below that of every later patron. */
  lemma HeadBelowRest(ps: seq<Patron>, rest: seq<Patron>)
    requires ps != []
    requires forall p :: p in rest ==> p in ps[1..]
    ensures AscendingIds(ps) ==> forall j :: 0 <= j < |rest| ==> Less(ps[0].id, rest[j].id)
  {
    if AscendingIds(ps) {
      forall j | 0 <= j < |rest| ensures Less(ps[0].id, rest[j].id) {
        assert rest[j] in ps[1..];
        var k :| 0 <= k < |ps[1..]| && ps[1..][k] == rest[j];
        assert ps[k + 1] == rest[j];
      }
    }
  }

  /** Every string contains the empty string, so the empty query keeps every patron. */
  lemma {:induction false} FilterByEmptyName(ps: seq<Patron>)
    ensures FilterByName(ps, []) == ps
  {
    if ps != [] {
      ContainsEmpty(Lower(ps[0].name));
      assert Lower([]) == [];
      FilterByEmptyName(ps[1..]);
    }
  }

  // The worked examples take their literals as parameters fixed by `requires`
  // rather than writing them in the `ensures`, so that the solver meets each
  // literal only where the proof uses it.

  /** The query "bob" finds "Bob Smith" ... */
  lemma BobMatchesBobSmith(p: Patron, query: string)
    requires p.name == "Bob Smith" && query == "bob"
    ensures NameMatches(p, query)
  {
    PrefixIgnoringCase(p.name, query);
  }

  /** ... and "bobby" ... */
  lemma BobMatchesBobby(p: Patron, query: string)
    requires p.name == "bobby" && query == "bob"
    ensures NameMatches(p, query)
  {
    PrefixIgnoringCase(p.name, query);
  }

  /** ... but not "Alice". */
  lemma BobMissesAlice(p: Patron, query: string)
    requires p.name == "Alice" && query == "bob"
    ensures !NameMatches(p, query)
  {
    MissingCharNotContained(p.name, query, 0);
  }

  // ---------------------------------------------------------------------
  // The repository object
  // ---------------------------------------------------------------------

  class PatronRepository {
    var patrons: Store

    ghost predicate Valid()
      reads this
    {
      Keyed(patrons) && AllWellFormed(patrons)
    }

    constructor()
      ensures Valid() && patrons == map[]
    {
      patrons := map[];
    }

    /** Adds `p` unless its id is already stored; reports whether it was added.
        `p` is a constructed patron, so it is well formed. */
    method AddPatron(p: Patron) returns (added: bool)
      requires Valid() && WellFormed(p)
      modifies this
      ensures Valid()
      ensures (patrons, added) == Insert(old(patrons), p)
    {
      if p.id in patrons {
        return false;
      }
      patrons := patrons[p.id := p];
      return true;
    }

    /** Removes the patron stored under `id`; reports whether there was one. */
    method RemovePatron(id: string) returns (removed: bool)
      requires Valid()
      modifies this
      ensures Valid()
      ensures (patrons, removed) == Delete(old(patrons), id)
    {
      removed := id in patrons;
      patrons := patrons - {id};
    }

    /** Every stored patron exactly once, ascending by id. */
    function GetAllPatrons(): (r: seq<Patron>)
      reads this
      requires Valid()
      ensures |r| == |patrons|
      ensures AscendingIds(r)
      ensures forall p :: p in r <==> p in patrons.Values
      ensures forall i :: 0 <= i < |r| ==> r[i].id in patrons && patrons[r[i].id] == r[i]
      ensures forall i :: 0 <= i < |r| ==> WellFormed(r[i])
    {
      var ks := SortedKeys(patrons.Keys);
      var r := ValuesAt(patrons, ks);
      ValuesAtCovers(patrons, ks, r);
      r
    }

    /** The patron stored under `id`, or `None` (Java's null) when there is none. */
    function SearchById(id: string): (r: Option<Patron>)
      reads this
      requires Valid()
      ensures r.Some? <==> id in patrons
      ensures r.Some? ==> r.value == patrons[id] && r.value.id == id && WellFormed(r.value)
    {
      if id in patrons then Some(patrons[id]) else None
    }

    /** The stored patrons whose lower-cased name contains the lower-cased query,
        ascending by id: the listing with the non-matching patrons left out. */
    function SearchByName(name: string): (r: seq<Patron>)
      reads this
      requires Valid()
      ensures AscendingIds(r)
      ensures forall p :: p in r <==> p in patrons.Values && NameMatches(p, name)
      ensures IsSubsequence(r, GetAllPatrons())
    {
      FilterByName(GetAllPatrons(), name)
    }

    /** The source filters the stored patrons and then sorts them by id; any
        id-ascending list of exactly the matching patrons is that result, so
        sorting first and filtering second gives the same list. */
    lemma SearchByNameIsFilterThenSort(name: string, r: seq<Patron>)
      requires Valid()
      requires AscendingIds(r)
      requires forall p :: p in r <==> p in patrons.Values && NameMatches(p, name)
      ensures r == SearchByName(name)
    {
      AscendingUnique(r, SearchByName(name));
    }

    /** The listing is the one id-ascending arrangement of the stored patrons. */
    lemma GetAllPatronsIsTheSortedValues(r: seq<Patron>)
      requires Valid()
      requires AscendingIds(r)
      requires forall p :: p in r <==> p in patrons.Values
      ensures r == GetAllPatrons()
    {
      AscendingUnique(r, GetAllPatrons());
    }

    /** Every stored id is seven ASCII digits. */
    lemma StoredIdsAreDigits()
      requires Valid()
      ensures forall k :: k in patrons ==> |k| == IdLength && AllDigits(k)
    {
      forall k | k in patrons ensures |k| == IdLength && AllDigits(k) {
        assert WellFormed(patrons[k]);
      }
    }

    /** `searchByName("")` is the whole listing. */
    lemma EmptyNameFindsAll()
      requires Valid()
      ensures SearchByName([]) == GetAllPatrons()
    {
      FilterByEmptyName(GetAllPatrons());
    }
  }
}
