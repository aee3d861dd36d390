/** The shapes of the feed data the home page receives: posts and the people shown with them. */
module Feed {
  import opened Wrappers

  /** An author or a suggested user; a missing name or headline is None. */
  datatype Person = Person(name: Option<string>, headline: Option<string>)

  /** A post; a missing content or author is None. */
  datatype Post = Post(content: Option<string>, author: Option<Person>)
}
