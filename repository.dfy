/** The posts store: a table keyed by a generated id, with the JpaRepository operations
    the service and the repository test use. */
module Repository {
  import opened Wrappers
  import opened Entity

  /** The table, keyed by id. */
  type Table = map<int, Row>

  /** Failures of the store itself; they reach the caller unhandled. */
  datatype PersistenceError =
    | ConstraintViolation   // a NOT NULL or length constraint of a column is broken
    | StaleEntity(id: int)  // the entity has an id that names no row

  /** The row a save writes for an entity with these fields. */
  function RowOf(title: Text, content: Text, author: Text): (row: Row)
    requires Persistable(title, content, author)
  {
    Row(title.value, content.value, author)
  }

  /** `p` is the entity hydrated from the row of `t` with key `id`. */
  ghost predicate LoadedFrom(p: Posts, id: int, t: Table)
    reads p
  {
    && id in t
    && p.id == Some(id)
    && p.title == Some(t[id].title)
    && p.content == Some(t[id].content)
    && p.author == t[id].author
  }

  /** The keys of `t` below `n`, ascending. */
  function IdsBelow(t: Table, n: nat): (ids: seq<int>)
  {
    if n == 0 then [] else IdsBelow(t, n - 1) + (if n - 1 in t then [n - 1] else [])
  }

  lemma {:induction false} IdsBelowMembers(t: Table, n: nat, k: int)
    ensures k in IdsBelow(t, n) <==> k in t && 0 <= k < n
  {
    if n > 0 {
      IdsBelowMembers(t, n - 1, k);
    }
  }

  lemma {:induction false} IdsBelowIncreasing(t: Table, n: nat)
    ensures forall i, j :: 0 <= i < j < |IdsBelow(t, n)| ==> IdsBelow(t, n)[i] < IdsBelow(t, n)[j]
  {
    if n > 0 {
      var prefix := IdsBelow(t, n - 1);
      IdsBelowIncreasing(t, n - 1);
      forall i | 0 <= i < |prefix|
        ensures prefix[i] < n - 1
      {
        IdsBelowMembers(t, n - 1, prefix[i]);
      }
    }
  }

  lemma {:induction false} IdsBelowSize(t: Table, n: nat)
    ensures |IdsBelow(t, n)| == |set k | k in t && 0 <= k < n|
  {
    if n > 0 {
      IdsBelowSize(t, n - 1);
      var below := set k | k in t && 0 <= k < n - 1;
      if n - 1 in t {
        assert (set k | k in t && 0 <= k < n) == below + {n - 1};
      } else {
        assert (set k | k in t && 0 <= k < n) == below;
      }
    }
  }

  /** When every key is below `n`, `IdsBelow(t, n)` lists each key of `t` exactly once,
      in ascending order: its length is the number of rows. */
  lemma ListingIsExact(t: Table, n: nat)
    requires forall k :: k in t ==> 0 <= k < n
    ensures forall k :: k in IdsBelow(t, n) <==> k in t
    ensures forall i, j :: 0 <= i < j < |IdsBelow(t, n)| ==> IdsBelow(t, n)[i] < IdsBelow(t, n)[j]
    ensures |IdsBelow(t, n)| == |t|
  {
    forall k
      ensures k in IdsBelow(t, n) <==> k in t
    {
      IdsBelowMembers(t, n, k);
    }
    IdsBelowIncreasing(t, n);
    IdsBelowSize(t, n);
    assert (set k | k in t && 0 <= k < n) == t.Keys;
  }

  /** The `posts` table together with its IDENTITY counter. */
  class PostsRepository {
    var table: Table
    /** The value the IDENTITY column hands out next. */
    var nextId: nat
    /** Every id ever handed out, those of deleted posts included. */
    ghost var Issued: set<int>

    ghost predicate Valid()
      reads this
    {
      && 1 <= nextId
      && (forall k :: k in Issued ==> 1 <= k < nextId)
      && (forall k :: k in table ==> k in Issued)
      && (forall k :: k in table ==> Fits(table[k]))
    }

    /** The ids of the stored posts in the order `findAll` returns them: ascending,
        which is the order they were inserted in. */
    function Ids(): (ids: seq<int>)
      reads this
    {
      IdsBelow(table, nextId)
    }

    /** `count()`: the number of stored posts, which is the length of `findAll()`. */
    function Count(): (n: nat)
      requires Valid()
      reads this
      ensures n == |Ids()|
    {
      ListingIsExact(table, nextId);
      |table|
    }

    /** An empty table whose counter starts at 1. */
    constructor ()
      ensures Valid()
      ensures table == map[] && nextId == 1 && Issued == {}
    {
      table := map[];
      nextId := 1;
      Issued := {};
    }

    /** Every stored row meets the column constraints of the entity. */
    lemma StoredRowsPersistable(id: int)
      requires Valid() && id in table
      ensures Persistable(Some(table[id].title), Some(table[id].content), table[id].author)
    {
    }

    /** `count()` is the length of `findAll()`, and `findAll()` lists each stored id once. */
    lemma CountIsListingSize()
      requires Valid()
      ensures |Ids()| == Count()
      ensures forall k :: k in Ids() <==> k in table
    {
      ListingIsExact(table, nextId);
    }

    /** Builds a fresh entity from the row with key `id`. */
    method Load(id: int) returns (p: Posts)
      requires id in table
      ensures fresh(p) && LoadedFrom(p, id, table)
    {
      var row := table[id];
      p := new Posts(Some(row.title), Some(row.content), row.author);
      p.id := Some(id);
    }

    /** `findById(id)`: the post with that id, or empty; absence is not an error. */
    method FindById(id: int) returns (r: Option<Posts>)
      ensures r.None? <==> id !in table
      ensures r.Some? ==> fresh(r.value) && LoadedFrom(r.value, id, table)
    {
      if id in table {
        var p := Load(id);
        r := Some(p);
      } else {
        r := None;
      }
    }

    /** `findAll()`: one entity per stored row, in ascending id order. */
    method FindAll() returns (ps: seq<Posts>)
      requires Valid()
      ensures |ps| == |Ids()| == Count()
      ensures forall i :: 0 <= i < |ps| ==> LoadedFrom(ps[i], Ids()[i], table)
    {
      ps := [];
      var n: nat := 0;
      while n < nextId
        invariant n <= nextId
        invariant |ps| == |IdsBelow(table, n)|
        invariant forall i :: 0 <= i < |ps| ==> LoadedFrom(ps[i], IdsBelow(table, n)[i], table)
      {
        if n in table {
          var p := Load(n);
          ps := ps + [p];
        }
        n := n + 1;
      }
      CountIsListingSize();
    }

    /** `save(entity)`: inserts when the entity has no id, writing the generated id back into
        it, and overwrites the row of its id otherwise. A failure leaves the store and the
        entity as they were. */
    method Save(p: Posts) returns (r: Result<Posts, PersistenceError>)
      requires Valid()
      modifies this, p
      ensures Valid()
      ensures p.title == old(p.title) && p.content == old(p.content) && p.author == old(p.author)
      ensures old(p.id).None? && r.Success? ==> r.value == p
      ensures r.Success? ==> r.value.id.Some? && LoadedFrom(r.value, r.value.id.value, table)
      // insert
      ensures old(p.id).None? && Persistable(p.title, p.content, p.author) ==>
        && r.Success?
        && p.id == Some(old(nextId))
        && old(nextId) !in old(Issued)
        && Issued == old(Issued) + {old(nextId)}
        && nextId == old(nextId) + 1
        && table == old(table)[old(nextId) := RowOf(p.title, p.content, p.author)]
      // update
      ensures old(p.id).Some? && old(p.id).value in old(table) && Persistable(p.title, p.content, p.author) ==>
        && r.Success?
        && p.id == old(p.id)
        && Issued == old(Issued)
        && nextId == old(nextId)
        && table == old(table)[old(p.id).value := RowOf(p.title, p.content, p.author)]
      // failures
      ensures old(p.id).Some? && old(p.id).value !in old(table) ==>
        r == Failure(StaleEntity(old(p.id).value))
      ensures (old(p.id).None? || old(p.id).value in old(table)) && !Persistable(p.title, p.content, p.author) ==>
        r == Failure(ConstraintViolation)
      ensures r.Failure? ==>
        p.id == old(p.id) && table == old(table) && nextId == old(nextId) && Issued == old(Issued)
    {
      if p.id.Some? && p.id.value !in table {
        return Failure(StaleEntity(p.id.value));
      }
      if !Persistable(p.title, p.content, p.author) {
        return Failure(ConstraintViolation);
      }
      var row := RowOf(p.title, p.content, p.author);
      if p.id.None? {
        p.id := Some(nextId);
        Issued := Issued + {nextId};
        nextId := nextId + 1;
      }
      table := table[p.id.value := row];
      r := Success(p);
    }

    /** `delete(entity)`: removes the row of the entity's id. An entity without an id, or
        whose id names no row, is ignored. */
    method Delete(p: Posts)
      requires Valid()
      modifies this
      ensures Valid()
      ensures table == if p.id.Some? then old(table) - {p.id.value} else old(table)
      ensures p.id.Some? && p.id.value in old(table) ==> Count() == old(Count()) - 1
      ensures nextId == old(nextId) && Issued == old(Issued)
    {
      if p.id.Some? {
        table := table - {p.id.value};
      }
    }

    /** `deleteAll()`: empties the table; ids already handed out are not handed out again. */
    method DeleteAll()
      requires Valid()
      modifies this
      ensures Valid()
      ensures table == map[] && Count() == 0
      ensures nextId == old(nextId) && Issued == old(Issued)
    {
      table := map[];
    }
  }
}
