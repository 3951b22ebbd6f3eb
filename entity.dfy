/** The post entity, mapped to the `posts` table. */
module Entity {
  import opened Wrappers

  /** A Java `String` field, which may be null (`None`). */
  type Text = Option<string>

  /** Declared length of the `title` column. */
  const TitleLength: nat := 500

  /** Length of the `author` column: it has no `@Column`, so JPA's default length applies. */
  const AuthorLength: nat := 255

  /** A row of the `posts` table the entity maps to. The column types make title and
      content non-null; author may be null. */
  datatype Row = Row(title: string, content: string, author: Text)

  /** The row's strings fit their columns: the title at most `TitleLength` characters, a
      non-null author at most `AuthorLength`. */
  predicate Fits(row: Row)
  {
    |row.title| <= TitleLength && (row.author.None? || |row.author.value| <= AuthorLength)
  }

  /** The column constraints of the `posts` table: `title` is NOT NULL and at most
      `TitleLength` characters long, `content` is NOT NULL, `author` may be null but is at
      most `AuthorLength` characters long. They hold exactly when some row of the table
      can carry the three values. */
  predicate Persistable(title: Text, content: Text, author: Text): (ok: bool)
    ensures ok <==> exists row: Row ::
      Some(row.title) == title && Some(row.content) == content && row.author == author && Fits(row)
  {
    var ok := title.Some? && content.Some? && Fits(Row(title.value, content.value, author));
    assert ok ==> var row := Row(title.value, content.value, author);
      Some(row.title) == title && Some(row.content) == content && row.author == author && Fits(row);
    ok
  }

  /** An author one character longer than its column is refused, whatever the title and
      content; one of exactly the column's length is accepted. */
  lemma AuthorColumnBound(title: string, content: string)
    requires |title| <= TitleLength
    ensures !Persistable(Some(title), Some(content), Some(seq(AuthorLength + 1, _ => 'a')))
    ensures Persistable(Some(title), Some(content), Some(seq(AuthorLength, _ => 'a')))
  {
  }

  /** A post in memory. The store fills in `id` at the first save. */
  class Posts {
    /** Generated by the store (IDENTITY); `None` until the post is first saved. */
    var id: Option<int>
    var title: Text
    var content: Text
    var author: Text

    /** The builder constructor: the three fields as given, the id unset. */
    constructor (title: Text, content: Text, author: Text)
      ensures id == None
      ensures this.title == title && this.content == content && this.author == author
    {
      id := None;
      this.title := title;
      this.content := content;
      this.author := author;
    }

    /** Overwrites title, content and author in one call; the id is never touched. */
    method Update(title: Text, content: Text, author: Text)
      modifies this
      ensures id == old(id)
      ensures this.title == title && this.content == content && this.author == author
    {
      this.title := title;
      this.content := content;
      this.author := author;
    }
  }
}
