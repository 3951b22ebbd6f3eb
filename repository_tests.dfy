/** The cases of the repository test, stated for all inputs; each starts,
    as after the test's `deleteAll()` tear-down, from a store whose table is empty. */
module RepositoryTests {
  import opened Wrappers
  import opened Entity
  import opened Repository

  /** testSaveAndFindById: a saved post is found under the id it was given, with the title,
      content and author it was built with. */
  method SaveAndFindById(repo: PostsRepository, title: string, content: string, author: Text)
    returns (found: Option<Posts>)
    requires repo.Valid() && Persistable(Some(title), Some(content), author)
    modifies repo
    ensures repo.Valid()
    ensures found.Some?
    ensures found.value.title == Some(title) && found.value.content == Some(content)
    ensures found.value.author == author
  {
    var post := new Posts(Some(title), Some(content), author);
    var saved := repo.Save(post);
    found := repo.FindById(saved.value.id.value);
  }

  /** testFindAll and testCount: after two new posts are saved into an empty store,
      `findAll()` has two elements and `count()` is 2. */
  method SaveTwoThenFindAll(repo: PostsRepository, first: Posts, second: Posts)
    returns (all: seq<Posts>, count: nat)
    requires repo.Valid() && repo.table == map[]
    requires first != second && first.id.None? && second.id.None?
    requires Persistable(first.title, first.content, first.author) && Persistable(second.title, second.content, second.author)
    modifies repo, first, second
    ensures repo.Valid()
    ensures |all| == 2 && count == 2
  {
    var saved1 := repo.Save(first);
    var saved2 := repo.Save(second);
    all := repo.FindAll();
    count := repo.Count();
  }

  /** testSaveTwice: saving the same object twice inserts it once, because the first save
      wrote the generated id into it and the second one therefore updates. */
  method SaveTwice(repo: PostsRepository, post: Posts) returns (count: nat)
    requires repo.Valid() && repo.table == map[]
    requires post.id.None? && Persistable(post.title, post.content, post.author)
    modifies repo, post
    ensures repo.Valid()
    ensures count == 1
  {
    var saved1 := repo.Save(post);
    var saved2 := repo.Save(post);
    assert saved2.Success?;
    count := repo.Count();
  }

  /** testDelete: after the saved post is deleted, its id finds nothing and the count is back
      to 0. */
  method SaveThenDelete(repo: PostsRepository, post: Posts) returns (found: Option<Posts>, count: nat)
    requires repo.Valid() && repo.table == map[]
    requires post.id.None? && Persistable(post.title, post.content, post.author)
    modifies repo, post
    ensures repo.Valid()
    ensures found.None? && count == 0
  {
    var saved := repo.Save(post);
    var id := post.id.value;
    repo.Delete(post);
    found := repo.FindById(id);
    count := repo.Count();
  }

  /** testFindByIdNotFound: an id the store never handed out finds nothing, and this is an
      empty result rather than an error. */
  method FindNeverIssued(repo: PostsRepository, id: int) returns (found: Option<Posts>)
    requires repo.Valid() && id !in repo.Issued
    ensures found.None?
  {
    found := repo.FindById(id);
  }

  /** Updating twice with the same values leaves the post as one update does, and a further
      update with other values replaces all three fields at once. */
  method UpdateTwice(post: Posts, title: Text, content: Text, author: Text, title': Text, content': Text, author': Text)
    returns (once: (Option<int>, Text, Text, Text), twice: (Option<int>, Text, Text, Text))
    modifies post
    ensures twice == once == (old(post.id), title, content, author)
    ensures post.id == old(post.id)
    ensures post.title == title' && post.content == content' && post.author == author'
  {
    post.Update(title, content, author);
    once := (post.id, post.title, post.content, post.author);
    post.Update(title, content, author);
    twice := (post.id, post.title, post.content, post.author);
    post.Update(title', content', author');
  }
}
