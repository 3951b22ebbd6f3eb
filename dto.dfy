/** The transfer objects that carry posts across the web/service boundary. */
module Dto {
  import opened Wrappers
  import opened Entity

  /** The form of a new post. */
  datatype PostsSaveRequestDto = PostsSaveRequestDto(title: Text, content: Text, author: Text)

  /** The form of an edit; `id` names the post to change. */
  datatype PostsUpdateRequestDto = PostsUpdateRequestDto(id: int, title: Text, content: Text, author: Text)

  /** What the read operations hand back for one post. */
  datatype PostsResponseDto = PostsResponseDto(id: Option<int>, title: Text, content: Text, author: Text)

  /** `new PostsResponseDto(entity)`: copies the entity's four getters; being a function,
      it only reads the entity and cannot change it. */
  function FromEntity(entity: Posts): (d: PostsResponseDto)
    reads entity
    ensures d.id == entity.id
    ensures d.title == entity.title && d.content == entity.content
    ensures d.author == entity.author
  {
    PostsResponseDto(entity.id, entity.title, entity.content, entity.author)
  }

  /** The conversion loses nothing: two entities give the same DTO exactly when their
      id, title, content and author agree, nulls included. */
  lemma FromEntityLossless(a: Posts, b: Posts)
    ensures FromEntity(a) == FromEntity(b) <==>
      a.id == b.id && a.title == b.title && a.content == b.content && a.author == b.author
  {
  }
}
