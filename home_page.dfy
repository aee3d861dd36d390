/** The search box of the home page: the term is trimmed and lower-cased once, and the post feed
    and the suggested-user list are narrowed to entries whose text contains it. */
module HomePage {
  import opened Wrappers
  import opened Sequences
  import opened Text
  import opened Feed

  /** `searchTerm.trim().toLowerCase()`. */
  function NormalizeSearch(term: string): (r: string)
    ensures |r| <= |term|
    ensures r == [] <==> IsBlank(term)
    ensures r != [] ==> !IsWhitespace(r[0]) && !IsWhitespace(r[|r| - 1])
    ensures forall i :: 0 <= i < |r| ==> !('A' <= r[i] <= 'Z')
  {
    var t := Trim(term);
    TrimEmptyIffBlank(term);
    ToLowerIdempotent(t);
    ToLowerWhitespace(t);
    ToLower(t)
  }

  /** A missing text reads as the empty string (`value || ""`). */
  function OrEmpty(s: Option<string>): string {
    if s.Some? then s.value else []
  }

  /** The author of a post, or nobody, read field by field (`post.author?.name`). */
  function AuthorName(p: Post): string {
    if p.author.Some? then OrEmpty(p.author.value.name) else []
  }

  function AuthorHeadline(p: Post): string {
    if p.author.Some? then OrEmpty(p.author.value.headline) else []
  }

  /** The content, the author's name or the author's headline contains the needle, ignoring case. */
  predicate PostMatches(p: Post, needle: string) {
    || Includes(ToLower(OrEmpty(p.content)), needle)
    || Includes(ToLower(AuthorName(p)), needle)
    || Includes(ToLower(AuthorHeadline(p)), needle)
  }

  /** The name or the headline of a suggested user contains the needle, ignoring case. */
  predicate PersonMatches(u: Person, needle: string) {
    || Includes(ToLower(OrEmpty(u.name)), needle)
    || Includes(ToLower(OrEmpty(u.headline)), needle)
  }

  /** `visiblePosts`: the feed as fetched while it is missing or the needle is empty, otherwise
      the matching posts in feed order. */
  function VisiblePosts(posts: Option<seq<Post>>, needle: string): (r: Option<seq<Post>>)
    ensures posts.None? || needle == [] ==> r == posts
    ensures posts.Some? && needle != [] ==>
              && r.Some?
              && IsSubsequence(r.value, posts.value)
              && (forall p :: p in r.value <==> p in posts.value && PostMatches(p, needle))
              && (forall p :: multiset(r.value)[p] == if PostMatches(p, needle) then multiset(posts.value)[p] else 0)
  {
    if posts.None? || needle == [] then posts
    else
      FilterMultiplicity(posts.value, p => PostMatches(p, needle));
      Some(Filter(posts.value, p => PostMatches(p, needle)))
  }

  /** `visibleRecommendedUsers`: the same narrowing over the suggested users. */
  function VisibleRecommendedUsers(users: Option<seq<Person>>, needle: string): (r: Option<seq<Person>>)
    ensures users.None? || needle == [] ==> r == users
    ensures users.Some? && needle != [] ==>
              && r.Some?
              && IsSubsequence(r.value, users.value)
              && (forall u :: u in r.value <==> u in users.value && PersonMatches(u, needle))
              && (forall u :: multiset(r.value)[u] == if PersonMatches(u, needle) then multiset(users.value)[u] else 0)
  {
    if users.None? || needle == [] then users
    else
      FilterMultiplicity(users.value, u => PersonMatches(u, needle));
      Some(Filter(users.value, u => PersonMatches(u, needle)))
  }

  /** Normalizing an already normalized term changes nothing. */
  lemma NormalizeIdempotent(term: string)
    ensures NormalizeSearch(NormalizeSearch(term)) == NormalizeSearch(term)
  {
    var t := Trim(term);
    TrimIdempotent(term);
    TrimToLower(t);
    ToLowerIdempotent(t);
  }

  /** The search does not depend on the case of the term typed. */
  lemma SearchIgnoresCase(term: string)
    ensures NormalizeSearch(ToLower(term)) == NormalizeSearch(term)
  {
    TrimToLower(term);
    ToLowerIdempotent(Trim(term));
  }

  /** A blank search box shows the feed and the suggestions exactly as fetched. */
  lemma BlankSearchShowsAll(term: string, posts: Option<seq<Post>>, users: Option<seq<Person>>)
    requires IsBlank(term)
    ensures VisiblePosts(posts, NormalizeSearch(term)) == posts
    ensures VisibleRecommendedUsers(users, NormalizeSearch(term)) == users
  {
  }

  /** A post whose text holds the typed term at some position, in any case, stays visible. */
  lemma PostWithTermInContentIsVisible(posts: seq<Post>, term: string, p: Post, i: nat)
    requires p in posts && p.content.Some?
    requires OccursAt(ToLower(p.content.value), NormalizeSearch(term), i)
    ensures VisiblePosts(Some(posts), NormalizeSearch(term)).Some?
    ensures p in VisiblePosts(Some(posts), NormalizeSearch(term)).value
  {
    IncludesIff(ToLower(p.content.value), NormalizeSearch(term));
  }

  /** A suggested user none of whose texts holds the term, in any case, is hidden by a non-blank
      search. */
  lemma UnrelatedUserIsHidden(users: seq<Person>, term: string, u: Person)
    requires !IsBlank(term)
    requires forall i: nat :: !OccursAt(ToLower(OrEmpty(u.name)), NormalizeSearch(term), i)
    requires forall i: nat :: !OccursAt(ToLower(OrEmpty(u.headline)), NormalizeSearch(term), i)
    ensures u !in VisibleRecommendedUsers(Some(users), NormalizeSearch(term)).value
  {
    IncludesIff(ToLower(OrEmpty(u.name)), NormalizeSearch(term));
    IncludesIff(ToLower(OrEmpty(u.headline)), NormalizeSearch(term));
  }
}
