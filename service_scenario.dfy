/** A whole post lifecycle through the service, starting from a new store: two posts are
    created and listed, the first is edited, the second deleted. */
module ServiceScenario {
  import opened Wrappers
  import opened Entity
  import opened Repository
  import opened Dto
  import opened Service

  method Lifecycle()
  {
    var repo := new PostsRepository();
    var service := new PostsService(repo);
    CreateAndList(service);
    EditAndDelete(service);
  }

  /** Two saves into a new store get ids 1 and 2, and the listing shows both in that order. */
  method CreateAndList(service: PostsService)
    requires service.repository.Valid()
    requires service.repository.table == map[] && service.repository.nextId == 1
    modifies service.repository
    ensures service.repository.Valid()
    ensures service.repository.table == map[1 := Row("T1", "C1", Some("A1")), 2 := Row("T2", "C2", Some("A2"))]
  {
    var repo := service.repository;
    var id1 := service.Save(PostsSaveRequestDto(Some("T1"), Some("C1"), Some("A1")));
    assert id1 == Success(1);
    var id2 := service.Save(PostsSaveRequestDto(Some("T2"), Some("C2"), Some("A2")));
    assert id2 == Success(2);
    assert repo.table == map[1 := Row("T1", "C1", Some("A1")), 2 := Row("T2", "C2", Some("A2"))];

    var all := service.FindAll();
    ListingShowsEachPostOnce(all, repo.table, repo.nextId);
    assert |all| == 2;
    assert all[0].id.value < all[1].id.value;
  }

  /** Editing post 1 replaces all three of its fields; deleting post 2 leaves one post and
      makes 2 unknown; a second delete and an edit without a title fail and change nothing. */
  method EditAndDelete(service: PostsService)
    requires service.repository.Valid()
    requires service.repository.table == map[1 := Row("T1", "C1", Some("A1")), 2 := Row("T2", "C2", Some("A2"))]
    modifies service.repository
    ensures service.repository.Valid()
    ensures service.repository.table == map[1 := Row("T1b", "C1b", Some("A1b"))]
    ensures service.repository.Count() == 1
  {
    var repo := service.repository;
    var updated := service.Update(PostsUpdateRequestDto(1, Some("T1b"), Some("C1b"), Some("A1b")));
    assert updated == Success(1);
    var one := service.FindById(1);
    assert one == Success(PostsResponseDto(Some(1), Some("T1b"), Some("C1b"), Some("A1b")));

    var deleted := service.Delete(2);
    assert deleted == Pass && repo.Count() == 1;
    var two := service.FindById(2);
    assert two == Failure(NotFound(2));

    var again := service.Delete(2);
    assert again == Fail(NotFound(2));
    var untitled := service.Update(PostsUpdateRequestDto(1, None, Some("C"), None));
    assert untitled == Failure(Persistence(ConstraintViolation));
    one := service.FindById(1);
    assert one == Success(PostsResponseDto(Some(1), Some("T1b"), Some("C1b"), Some("A1b")));
  }
}
