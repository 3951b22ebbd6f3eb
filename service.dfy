/** The post service: the create, read, update and delete operations over the store. */
module Service {
  import opened Wrappers
  import opened Entity
  import opened Repository
  import opened Dto

  /** What the service throws. */
  datatype ServiceError =
    | NotFound(id: int)                    // no post has this id
    | Persistence(cause: PersistenceError) // the store refused the write

  /** What a client is shown of the stored post `row` with key `id`. */
  function View(id: int, row: Row): (d: PostsResponseDto)
  {
    PostsResponseDto(Some(id), Some(row.title), Some(row.content), row.author)
  }

  /** The DTO of an entity loaded from the table carries the stored id, title, content and
      author, a null author staying null. */
  lemma LoadedView(p: Posts, id: int, t: Table)
    requires LoadedFrom(p, id, t)
    ensures FromEntity(p) == View(id, t[id])
    ensures FromEntity(p).id == Some(id) && FromEntity(p).author == t[id].author
  {
  }

  /** `dtos` shows, position by position, the posts of `t` whose ids `ids` lists. */
  ghost predicate Shows(dtos: seq<PostsResponseDto>, t: Table, ids: seq<int>)
  {
    && |dtos| == |ids|
    && forall i :: 0 <= i < |ids| ==> ids[i] in t && dtos[i] == View(ids[i], t[ids[i]])
  }

  /** A listing in the store's order shows every stored post exactly once, in ascending id
      order, and nothing else. */
  lemma ListingShowsEachPostOnce(dtos: seq<PostsResponseDto>, t: Table, n: nat)
    requires forall k :: k in t ==> 0 <= k < n
    requires Shows(dtos, t, IdsBelow(t, n))
    ensures |dtos| == |t|
    ensures forall i :: 0 <= i < |dtos| ==> dtos[i].id.Some? && dtos[i].id.value in t
    ensures forall i, j :: 0 <= i < j < |dtos| ==> dtos[i].id.value < dtos[j].id.value
    ensures forall k :: k in t ==> exists i :: 0 <= i < |dtos| && dtos[i].id == Some(k)
  {
    var ids := IdsBelow(t, n);
    ListingIsExact(t, n);
    forall k | k in t
      ensures exists i :: 0 <= i < |dtos| && dtos[i].id == Some(k)
    {
      var i :| 0 <= i < |ids| && ids[i] == k;
      assert dtos[i].id == Some(k);
    }
  }

  class PostsService {
    /** The store; the service uses it but does not own it. */
    const repository: PostsRepository

    constructor (repository: PostsRepository)
      ensures this.repository == repository
    {
      this.repository := repository;
    }

    /** Builds an entity from the request and inserts it; returns the id the store gave it. */
    method Save(request: PostsSaveRequestDto) returns (r: Result<int, ServiceError>)
      requires repository.Valid()
      modifies repository
      ensures repository.Valid()
      ensures r.Success? <==> Persistable(request.title, request.content, request.author)
      ensures r.Success? ==>
        && r.value == old(repository.nextId)
        && r.value !in old(repository.Issued)
        && repository.Issued == old(repository.Issued) + {r.value}
        && r.value !in old(repository.table)
        && repository.table == old(repository.table)[r.value := RowOf(request.title, request.content, request.author)]
        && repository.Count() == old(repository.Count()) + 1
      ensures r.Failure? ==>
        && r.error == Persistence(ConstraintViolation)
        && repository.table == old(repository.table)
        && repository.Issued == old(repository.Issued)
      ensures repository.nextId == if r.Success? then old(repository.nextId) + 1 else old(repository.nextId)
    {
      var posts := new Posts(request.title, request.content, request.author);
      var saved := repository.Save(posts);
      match saved
      case Success(p) =>
        r := Success(p.id.value);
      case Failure(e) =>
        r := Failure(Persistence(e));
    }

    /** Loads the post named by the request, overwrites its title, content and author in
        place, and commits; fails with `NotFound` when there is no such post. The whole
        operation is one transaction: on any failure the store is as it was. */
    method Update(request: PostsUpdateRequestDto) returns (r: Result<int, ServiceError>)
      requires repository.Valid()
      modifies repository
      ensures repository.Valid()
      ensures request.id !in old(repository.table) ==> r == Failure(NotFound(request.id))
      ensures request.id in old(repository.table) && Persistable(request.title, request.content, request.author) ==>
        && r == Success(request.id)
        && request.id in repository.table
        && repository.table[request.id] == RowOf(request.title, request.content, request.author)
      ensures request.id in old(repository.table) && !Persistable(request.title, request.content, request.author) ==>
        r == Failure(Persistence(ConstraintViolation))
      ensures r.Failure? ==> repository.table == old(repository.table)
      // no other post changes, no post is added or removed
      ensures repository.table.Keys == old(repository.table.Keys)
      ensures forall k :: k in old(repository.table) && k != request.id ==>
        repository.table[k] == old(repository.table)[k]
      ensures repository.Count() == old(repository.Count())
      ensures repository.nextId == old(repository.nextId) && repository.Issued == old(repository.Issued)
    {
      var found := repository.FindById(request.id);
      if found.None? {
        return Failure(NotFound(request.id));
      }
      var posts := found.value;
      posts.Update(request.title, request.content, request.author);
      // The transaction's commit writes the changed entity back to its row.
      var flushed := repository.Save(posts);
      if flushed.Failure? {
        return Failure(Persistence(flushed.error));
      }
      r := Success(posts.id.value);
    }

    /** The post with this id as a DTO, or `NotFound`. */
    method FindById(id: int) returns (r: Result<PostsResponseDto, ServiceError>)
      ensures r.Failure? <==> id !in repository.table
      ensures r.Failure? ==> r.error == NotFound(id)
      ensures r.Success? ==> r.value == View(id, repository.table[id])
    {
      var found := repository.FindById(id);
      if found.None? {
        return Failure(NotFound(id));
      }
      LoadedView(found.value, id, repository.table);
      r := Success(FromEntity(found.value));
    }

    /** Every stored post as a DTO, in the store's order. */
    method FindAll() returns (dtos: seq<PostsResponseDto>)
      requires repository.Valid()
      ensures Shows(dtos, repository.table, repository.Ids())
      ensures |dtos| == repository.Count()
    {
      var posts := repository.FindAll();
      dtos := seq(|posts|, i requires 0 <= i < |posts| reads posts => FromEntity(posts[i]));
      forall i | 0 <= i < |dtos|
        ensures dtos[i] == View(repository.Ids()[i], repository.table[repository.Ids()[i]])
      {
        LoadedView(posts[i], repository.Ids()[i], repository.table);
      }
    }

    /** Removes the post with this id, or fails with `NotFound` and changes nothing. */
    method Delete(id: int) returns (r: Outcome<ServiceError>)
      requires repository.Valid()
      modifies repository
      ensures repository.Valid()
      ensures r.Fail? <==> id !in old(repository.table)
      ensures r.Fail? ==> r.error == NotFound(id) && repository.table == old(repository.table)
      ensures r.Pass? ==>
        && repository.table == old(repository.table) - {id}
        && repository.Count() == old(repository.Count()) - 1
      ensures repository.nextId == old(repository.nextId) && repository.Issued == old(repository.Issued)
    {
      var found := repository.FindById(id);
      if found.None? {
        return Fail(NotFound(id));
      }
      repository.Delete(found.value);
      r := Pass;
    }
  }
}
