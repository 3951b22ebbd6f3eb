# Blog post lifecycle (CorpMemberLibrary posts core)

This project models the post lifecycle of the CorpMemberLibrary web application:
creating, reading one, reading all, updating and deleting blog posts over a table keyed
by a generated id.

- `Entity` (`entity.dfy`) is the `Posts` entity and the `Row` of the `posts` table it maps to. `Posts` is a class with a nullable `id`, `title`,
  `content` and `author`. It has the builder constructor, which leaves the id unset, and
  the in-place `update`. The column constraints are the predicate `Persistable`:
  title NOT NULL and at most 500 characters, content NOT NULL, and author (nullable) at
  most 255 characters. `author` has no `@Column`, so JPA's default length applies.
- `Repository` (`repository.dfy`) is `PostsRepository`. It is a class over
  `map<int, Row>`, with an IDENTITY counter starting at 1 and a ghost set of every id
  ever handed out. It provides `save` (insert or update), `findById`, `findAll`,
  `count`, `delete` and `deleteAll`. `findAll` lists rows by ascending id, which is
  insertion order because ids only grow.
- `Dto` (`dto.dfy`) has the request and response transfer objects and the
  entity-to-DTO conversion `FromEntity`.
- `Service` (`service.dfy`) is `PostsService`, which holds a reference to the
  repository. `update`, `findById` and `delete` turn an absent post into
  `NotFound(id)`. `update` and `delete` are transactions: on failure the table is
  unchanged.
- `RepositoryTests` (`repository_tests.dfy`) states each case of the repository test
  for all inputs. `ServiceScenario` (`service_scenario.dfy`) checks a whole create, list,
  edit and delete sequence through the service contracts.

Modelling choices:
- A Java `String` is `Option<string>`, with `None` for null. An id is an `int`: a Java
  `Long` without overflow and never null.
- The store holds row values. `findById` and `findAll` hydrate fresh `Posts` objects
  from the rows. In the source, `update` relies on dirty checking: the changed managed
  entity is written back when the transaction commits. The model makes that write-back
  an explicit `save` of the loaded entity at the end of `Service.PostsService.Update`.
- The source states no column validation of its own; the database enforces the
  column constraints when a row is written. The model therefore checks them in
  `save`. A violation is `ConstraintViolation`, and the table is left unchanged.
- `delete` of an entity with no id, or with an id that names no row, does nothing.
  This follows Spring Data's `SimpleJpaRepository.delete`.
- `save` of an entity whose id is set but names no row fails with `StaleEntity`. The
  source never does this, and what JPA does then depends on the provider version.

## Model

| member | source | states |
|---|---|---|
| `Entity.Posts.constructor` | src/main/java/com/david/CorpMemberLibrary/domain/posts/Posts.java:58-63 | the built post has exactly the given title, content and author, and its id is unset |
| `Entity.Posts.Update` | src/main/java/com/david/CorpMemberLibrary/domain/posts/Posts.java:78-84 | one call sets all three of title, content and author to the arguments; the id is unchanged |
| `Entity.Persistable` | src/main/java/com/david/CorpMemberLibrary/domain/posts/Posts.java:31-45 | a title, content and author can be stored exactly when some row of the `posts` table holds them: title and content non-null, title at most 500 characters, a non-null author at most 255 (the default column length) |
| `Entity.AuthorColumnBound` | src/main/java/com/david/CorpMemberLibrary/domain/posts/Posts.java:45 | an author of 256 characters is refused and one of 255 accepted, for any valid title and content |
| `Repository.IdsBelowMembers` | src/main/java/com/david/CorpMemberLibrary/domain/posts/PostsRepository.java:12 | an id is listed exactly when it is a key of the table in range (both directions) |
| `Repository.IdsBelowIncreasing` | src/main/java/com/david/CorpMemberLibrary/domain/posts/PostsRepository.java:12 | the listing order is strictly ascending by id, so no post appears twice |
| `Repository.IdsBelowSize` | src/main/java/com/david/CorpMemberLibrary/domain/posts/PostsRepository.java:12-14 | the listing is as long as the set of keys it covers |
| `Repository.ListingIsExact` | src/main/java/com/david/CorpMemberLibrary/domain/posts/PostsRepository.java:12-14 | when every key is below the counter, the listing holds every stored id once, ascending, and its length is the row count |
| `Repository.PostsRepository.constructor` | src/main/java/com/david/CorpMemberLibrary/domain/posts/Posts.java:22-24 | a new store is empty, has issued no ids, and will generate 1 first |
| `Repository.PostsRepository.StoredRowsPersistable` | src/main/java/com/david/CorpMemberLibrary/domain/posts/Posts.java:31-39 | every stored post has a non-null title of at most 500 characters, non-null content, and an author of at most 255 characters or null |
| `Repository.PostsRepository.CountIsListingSize` | src/main/java/com/david/CorpMemberLibrary/domain/posts/PostsRepository.java:9-14 | `count()` equals the length of `findAll()`, which lists exactly the stored ids |
| `Repository.PostsRepository.Count` | src/main/java/com/david/CorpMemberLibrary/domain/posts/PostsRepository.java:14 | `count()` is the length of the `findAll()` listing |
| `Repository.PostsRepository.FindById` | src/main/java/com/david/CorpMemberLibrary/domain/posts/PostsRepository.java:11 | empty exactly when the id is not stored; otherwise a fresh entity with that id and the row's fields |
| `Repository.PostsRepository.FindAll` | src/main/java/com/david/CorpMemberLibrary/domain/posts/PostsRepository.java:12 | one entity per stored row, in ascending id order, each carrying its row's id and fields; as many as `count()` |
| `Repository.PostsRepository.Save` | src/main/java/com/david/CorpMemberLibrary/domain/posts/PostsRepository.java:10 | with no id: inserts under a never-issued id, writes it into the entity and advances the counter; with a stored id: overwrites that row only; the returned entity holds the saved row, and on insert it is the argument itself; constraint violation or unknown id: fails and nothing changes |
| `Repository.PostsRepository.Delete` | src/main/java/com/david/CorpMemberLibrary/domain/posts/PostsRepository.java:13 | removes exactly the row of the entity's id (count drops by 1 if it existed); no id or unknown id changes nothing |
| `Repository.PostsRepository.DeleteAll` | src/test/java/com/david/CorpMemberLibrary/domain/posts/PostsRepositoryTest.java:21-24 | the table is empty and the count is 0; issued ids stay issued |
| `Dto.FromEntity` | src/main/java/com/david/CorpMemberLibrary/web/dto/posts/PostsResponseDto.java:49-55 | the DTO's id, title, content and author are the entity's, a null author staying null; the entity is only read |
| `Dto.FromEntityLossless` | src/main/java/com/david/CorpMemberLibrary/web/dto/posts/PostsResponseDto.java:49-55 | two entities convert to the same DTO exactly when their id, title, content and author agree, nulls included |
| `Service.LoadedView` | src/main/java/com/david/CorpMemberLibrary/web/dto/posts/PostsResponseDto.java:51-54 | the DTO of a loaded entity carries the stored id, title, content and author, a null author staying null |
| `Service.ListingShowsEachPostOnce` | src/main/java/com/david/CorpMemberLibrary/service/posts/PostsService.java:130-139 | a listing in store order has one DTO per stored post: as many as rows, ids ascending, every stored id present |
| `Service.PostsService.constructor` | src/main/java/com/david/CorpMemberLibrary/service/posts/PostsService.java:40 | the service uses the repository it is given |
| `Service.PostsService.Save` | src/main/java/com/david/CorpMemberLibrary/service/posts/PostsService.java:51-65 | succeeds exactly when the request is persistable; returns the counter's id, never issued before, and adds one row with the request's fields; otherwise fails and nothing changes |
| `Service.PostsService.Update` | src/main/java/com/david/CorpMemberLibrary/service/posts/PostsService.java:80-103 | unknown id: `NotFound(id)`; known id: all three fields replaced and the id returned; any failure leaves the table unchanged; no other post, no key and no count changes |
| `Service.PostsService.FindById` | src/main/java/com/david/CorpMemberLibrary/service/posts/PostsService.java:112-123 | fails with `NotFound(id)` exactly when the id is not stored; otherwise the DTO of the stored post |
| `Service.PostsService.FindAll` | src/main/java/com/david/CorpMemberLibrary/service/posts/PostsService.java:130-140 | position by position the DTO of the post `findAll()` lists there; length equals `count()` |
| `Service.PostsService.Delete` | src/main/java/com/david/CorpMemberLibrary/service/posts/PostsService.java:151-161 | fails with `NotFound(id)` exactly when the id is not stored, changing nothing; otherwise removes exactly that post and the count drops by 1 |
| `RepositoryTests.SaveAndFindById` | src/test/java/com/david/CorpMemberLibrary/domain/posts/PostsRepositoryTest.java:26-49 | a saved post is found by its new id with the title, content and author it was built with |
| `RepositoryTests.SaveTwoThenFindAll` | src/test/java/com/david/CorpMemberLibrary/domain/posts/PostsRepositoryTest.java:51-75 | two new posts saved into an empty store give a `findAll` of size 2 and a count of 2 |
| `RepositoryTests.SaveTwice` | src/test/java/com/david/CorpMemberLibrary/domain/posts/PostsRepositoryTest.java:77-95 | saving one object twice stores it once: count is 1 |
| `RepositoryTests.SaveThenDelete` | src/test/java/com/david/CorpMemberLibrary/domain/posts/PostsRepositoryTest.java:97-117 | after delete the id finds nothing and count is 0 |
| `RepositoryTests.FindNeverIssued` | src/test/java/com/david/CorpMemberLibrary/domain/posts/PostsRepositoryTest.java:145-153 | an id never handed out finds an empty result, not an error |
| `RepositoryTests.UpdateTwice` | src/main/java/com/david/CorpMemberLibrary/domain/posts/Posts.java:78-84 | the state after two identical updates equals the state after one (idempotence), a later update replaces all three fields, and the id never changes |
| `ServiceScenario.CreateAndList` | src/main/java/com/david/CorpMemberLibrary/service/posts/PostsService.java:51-65 | two saves into a new store get ids 1 and 2 and store exactly those two rows |
| `ServiceScenario.EditAndDelete` | src/main/java/com/david/CorpMemberLibrary/service/posts/PostsService.java:80-161 | after editing post 1 and deleting post 2, only post 1 remains, with the edited fields; the failed second delete and the failed edit without a title change nothing |

## Left out

- Repository.PostsRepository.Save: on the update path, the result is only promised to be an entity holding the saved row. It is not promised to be a copy distinct from the argument. Spring Data's `save` merges here. Merge returns the argument itself when the entity is already managed and a managed copy otherwise, and the model does not track which entities are managed.
- `PostsController` is not part of this model: its view names, model attributes and redirects are presentation. Its one rule is that the path id wins over the form's id. That rule appears only as the `id` of the `PostsUpdateRequestDto` passed to `Update`.
- JPA and Spring internals are left out: SQL, the persistence context, and the transaction machinery. Atomicity is modelled only as "a failed operation leaves the table unchanged".
- Entity identity within a persistence context is not modelled. Each load returns a fresh object, and a change to a loaded entity reaches the table only through the explicit write-back in `Update`.
- A null id passed to `findById`, `update` or `delete` is left out. Spring Data rejects it with its own exception; the web layer always supplies the path id.
- `Long` overflow of generated ids is left out; ids are unbounded integers.
- Concurrent requests are left out; the model has one sequential caller.
- The exception's message text is left out. The failure is the value `NotFound(id)`, which carries the id.
- Database failures other than column constraints, such as connectivity, are left out.
- `PostsSaveRequestDto` and `PostsUpdateRequestDto` have no behaviour; they are plain datatypes.
- The unrelated greeting controller and its tests are left out.
- The source throws `IllegalArgumentException` for a missing post. The model calls this error `NotFound`.
- The source states no `findAll` order. The model lists posts by ascending id, which is insertion order for generated ids.
