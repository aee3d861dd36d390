# CareerLink messaging and feed widgets, modelled in Dafny

CareerLink is a small professional network. This project models the parts of it that compute
something, and proves what they promise.

- **Messaging API** (`backend/controllers/message.controller.js`):
  - `getConversations` builds one row per counterpart. Each row holds the counterpart's profile,
    a preview of the newest message and the number of unread messages from that counterpart.
    The rows are sorted newest first.
  - `getMessages` returns a pair's history and marks the counterpart's messages read.
  - `sendMessage` checks the request, then appends a message.
  - `markAsRead` is a bulk update.
  - The message collection and the user directory are Dafny values: a `seq<Message>` and a
    `map` from user id to profile and connection list.
  - The handlers that change the collection are methods of the class
    `MessageController.MessageStore`.
  - `getConversations` only reads, so it is a set of functions.
- **Navigation bar** (`Navbar.jsx`): the unread-messages badge sums the rows' unread counts. The
  notifications badge counts unread notifications. A badge is drawn only for a count above zero.
- **Messages page** (`MessagesPage.jsx`): the "New Message" menu offers the connections that have
  no conversation row yet. The selected conversation is kept in the `userId` query parameter.
- **Home page** (`HomePage.jsx`): the search term is trimmed and lower-cased. The feed and the
  suggested users are narrowed to entries containing it.
- **Trending topics** (`TrendingTopics.jsx`): the loops of `extractHashtags` are modelled as
  methods. They are proved equal to a functional specification that tallies `#\w+` tags without
  regard to case, sorts stably by count and keeps five.
- **Sidebar** (`Sidebar.jsx`): the profile-completion percentage.
- **Theme switch** (`ThemeToggle.jsx`): a class holding the theme, local storage and the
  document's `data-theme` attribute.

Modules:

| module | contents |
|---|---|
| `Wrappers` | `Option` and `Result` |
| `Sequences` | the JavaScript `Set` de-duplication, `filter` and occurrence counts |
| `Text` | `trim`, ASCII `toLowerCase` and `includes` |
| `Messages`, `Conversations`, `MessageController` | the backend |
| `Feed`, `HomePage`, `TrendingTopics`, `Sidebar`, `Navbar`, `MessagesPage`, `Theme` | the frontend |

Where the code and its design description differ, the model follows the code:

- **Ties in `createdAt`.** The design asks for timestamp ties to be broken by message id. The
  code sorts only by `createdAt`, so the order of ties is whatever the database returns. The
  model fixes one such order: store order, which is id order, because ids are insertion
  positions. For the newest message this means the one stored last.
- **Deleted counterparts.** The design says a conversation with a deleted counterpart is still
  listed, with a missing profile. The code does list such a row when the counterpart did not send
  the newest message. When the counterpart did send it, the code fails the whole listing (see
  Findings).

## Model

| member | source | states |
|---|---|---|
| Sequences.Dedup | backend/controllers/message.controller.js:13 | `[...new Set(ids)]` holds each id once, and exactly the ids of its input |
| Sequences.Filter | frontend/src/pages/HomePage.jsx:36-45 | `filter` keeps exactly the elements satisfying the predicate, in their original order, and never adds any |
| Sequences.FilterMultiplicity | frontend/src/pages/HomePage.jsx:36-45 | `filter` keeps every occurrence of a kept value and none of a dropped one, so with the order above the result is fixed |
| Text.TrimIsCore | backend/controllers/message.controller.js:132 | `trim` returns a contiguous piece of the string. Only white space was cut on either side, and the result neither starts nor ends with white space |
| Text.TrimEmptyIffBlank | backend/controllers/message.controller.js:110 | `content.trim()` is empty exactly when the content is all white space |
| Text.TrimIdempotent | frontend/src/pages/HomePage.jsx:32 | trimming a trimmed string changes nothing |
| Text.ToLowerIdempotent | frontend/src/components/TrendingTopics.jsx:12 | a lower-cased string has no upper-case letter, and lower-casing it again changes nothing |
| Text.ToLowerWhitespace | frontend/src/pages/HomePage.jsx:32 | lower-casing maps white space to white space and nothing else to it |
| Text.TrimToLower | frontend/src/pages/HomePage.jsx:32 | trimming and lower-casing commute |
| Text.IncludesIff | frontend/src/pages/HomePage.jsx:41-43 | `includes` holds exactly when the needle occurs at some position |
| Text.IncludesEmpty | frontend/src/pages/HomePage.jsx:35 | every text includes the empty needle |
| Messages.CountUnread | backend/controllers/message.controller.js:28-32 | the unread count of a directed pair never exceeds the number of stored messages |
| Messages.LatestBetween | backend/controllers/message.controller.js:18-24 | None exactly when the pair exchanged nothing. Otherwise it is a stored message of the pair, and no message of the pair is newer |
| Messages.MarkRead | backend/controllers/message.controller.js:88-95 | the bulk update keeps every message in place |
| Messages.MarkReadClears | backend/controllers/message.controller.js:154-161 | after the update, nothing from `sender` to the user is unread |
| Messages.MarkReadKeepsOtherCounts | backend/controllers/message.controller.js:154-161 | the update leaves the unread count of every other directed pair unchanged |
| Messages.MarkReadOnlySetsRead | backend/controllers/message.controller.js:154-161 | only `read` changes, only from false to true, and only on messages from `sender` to the user |
| Messages.MarkReadIdempotent | backend/controllers/message.controller.js:88-95 | running the update twice is running it once |
| Messages.MarkReadChronological | backend/controllers/message.controller.js:88-95 | the update keeps the store in creation order |
| Messages.HistoryChronological | backend/controllers/message.controller.js:77-83 | the pair's history comes out oldest first |
| Messages.HistoryExact | backend/controllers/message.controller.js:77-82 | the history holds every message between the pair in either direction and nothing else, in store order |
| Messages.HistorySymmetric | backend/controllers/message.controller.js:78-81 | the history is the same whichever of the two asks |
| Messages.HistoryAppend | backend/controllers/message.controller.js:77-83 | a newly stored message of the pair ends their history, and other pairs' histories do not change |
| Messages.NewestMessageIsLatest | backend/controllers/message.controller.js:18-24 | a message at least as new as everything stored becomes the pair's newest once stored |
| Messages.SumUnreadFromIsUnreadTo | backend/controllers/message.controller.js:28-32 | per-sender unread counts, over distinct senders that cover everyone who sent the user an unread message, add up to the user's unread total |
| Conversations.Receivers | backend/controllers/message.controller.js:10 | the receivers are exactly the users the user sent a message to |
| Conversations.Senders | backend/controllers/message.controller.js:11 | the senders are exactly the users who sent the user a message |
| Conversations.CounterpartIds | backend/controllers/message.controller.js:10-13 | the counterparts are distinct, and are exactly the users with whom a message was exchanged in either direction |
| Conversations.InsertByRecencyCorrect | backend/controllers/message.controller.js:51-55 | inserting with the source's comparator keeps the rows sorted and adds exactly the new row |
| Conversations.SortByRecencyCorrect | backend/controllers/message.controller.js:51-55 | the sort orders the rows newest first, with rows lacking a preview last, and is a permutation of them |
| Conversations.EntriesAsWrittenAgree | backend/controllers/message.controller.js:16-48 | the `Promise.all` over the rows matches the corrected rows when every newest message's sender still exists. It fails with 500 as soon as one does not |
| Conversations.GetConversationsAgrees | backend/controllers/message.controller.js:5-62 | `getConversations` as written returns the corrected list exactly when every counterpart's newest message has a known sender, and 500 otherwise |
| Conversations.DeletedSenderFailsListing | backend/controllers/message.controller.js:42 | one unread message from a since-deleted user makes the listing as written answer 500. The corrected listing shows its row |
| Conversations.RowsAreEntries | backend/controllers/message.controller.js:16-47 | every row of the list was built for its own counterpart, and that counterpart exchanged messages with the user |
| Conversations.ListConversationsIdsDistinct | backend/controllers/message.controller.js:13 | the list has one row per counterpart, with distinct row ids |
| Conversations.ListConversationsIdsAreCounterparts | backend/controllers/message.controller.js:10-13 | the rows' ids are exactly the counterparts |
| Conversations.ListConversationsOnePerCounterpart | backend/controllers/message.controller.js:10-47 | exactly one row per user with whom a message was exchanged. A counterpart missing from the directory keeps its row, with no profile |
| Conversations.ListConversationsRows | backend/controllers/message.controller.js:18-46 | each row's unread count counts the counterpart's unread messages to the user, its user is the directory's profile, and its preview summarises the pair's newest message |
| Conversations.ListConversationsSorted | backend/controllers/message.controller.js:51-55 | the list is sorted newest first |
| Conversations.MarkReadZeroesRow | backend/controllers/message.controller.js:88-95 | after the user opens (or marks read) a conversation, its row shows no unread messages |
| MessageController.SendGate | backend/controllers/message.controller.js:110-127 | the request checks run in the source's order: 400 for a missing receiver or blank content, then 404 for an unknown receiver, then 500 for an unknown sender, then 403 for a non-connection. Each status is returned exactly under its condition, and an accepted request yields the receiver and the non-empty trimmed content |
| MessageController.BlankContentIsBadRequest | backend/controllers/message.controller.js:110-112 | blank content is refused with 400 whatever else the request holds |
| MessageController.MessageStore.SendMessage | backend/controllers/message.controller.js:105-146 | a rejected request changes nothing and reports the gate's status. An accepted one appends one unread message with a fresh id, the trimmed content and the current time |
| MessageController.MessageStore.GetMessages | backend/controllers/message.controller.js:65-102 | 404 with no change for an unknown counterpart. Otherwise it answers the pair's history, oldest first, as it was before the update, with the counterpart's profile, and then the counterpart's messages to the user count no unread |
| MessageController.MessageStore.MarkAsRead | backend/controllers/message.controller.js:149-168 | the store becomes the bulk update of the old store, and nothing from `sender` to the user stays unread |
| MessageController.SendThenHistory | backend/controllers/message.controller.js:129-135 | a sent message ends the pair's history seen from either side, and becomes their newest message |
| MessageController.SentMessageCountsForReceiverOnly | backend/controllers/message.controller.js:129-133 | a sent message adds one to the receiver's unread count from the sender, and nothing to the sender's own counts |
| TrendingTopics.MatchTags | frontend/src/components/TrendingTopics.jsx:10 | `match(/#\w+/g)` gives one match per index at which a `#` is followed by a word character, in index order. Each match is the text of `s` from that `#` to the end of its maximal run of word characters |
| TrendingTopics.TagStarts | frontend/src/components/TrendingTopics.jsx:10 | the reference for the scan: every index at which `#\w+` can begin, each once, in increasing order |
| TrendingTopics.TagAt | frontend/src/components/TrendingTopics.jsx:10 | the match at a start is a `#\w+` token taken from the text, and its run of word characters cannot be extended |
| TrendingTopics.MatchTagsFindsEveryTag | frontend/src/components/TrendingTopics.jsx:10 | every `#` followed by a word character yields its match |
| TrendingTopics.Tally | frontend/src/components/TrendingTopics.jsx:17 | `Object.entries(tagCount)` has one entry per distinct tag |
| TrendingTopics.TallyEntries | frontend/src/components/TrendingTopics.jsx:6-17 | the entries are distinct. Each is a seen tag with its number of occurrences, and every seen tag has its entry |
| TrendingTopics.InsertByCountPermutes | frontend/src/components/TrendingTopics.jsx:18 | inserting an entry adds exactly that entry |
| TrendingTopics.InsertByCountSorted | frontend/src/components/TrendingTopics.jsx:18 | inserting into a list sorted by descending count keeps it sorted |
| TrendingTopics.InsertByCountStable | frontend/src/components/TrendingTopics.jsx:18 | the inserted entry goes ahead of every entry with the same count |
| TrendingTopics.SortByCountCorrect | frontend/src/components/TrendingTopics.jsx:18 | the sort orders by descending count, is a permutation, and keeps equal counts in their original order |
| TrendingTopics.TrendingShape | frontend/src/components/TrendingTopics.jsx:4-21 | at most five topics, each tag once, each tag a seen tag whose count is its total number of occurrences, highest count first |
| TrendingTopics.TrendingKeepsTheTopFive | frontend/src/components/TrendingTopics.jsx:17-20 | a seen tag missing from the result occurs no more often than the fifth topic kept |
| TrendingTopics.TrendingTiesKeepFirstAppearance | frontend/src/components/TrendingTopics.jsx:17-18 | tags with equal counts come out in the order they first appeared |
| TrendingTopics.AllTagsLowercase | frontend/src/components/TrendingTopics.jsx:10-12 | every tallied tag is a lower-case `#\w+` match, so spellings that differ only in case count together |
| TrendingTopics.TallyStep | frontend/src/components/TrendingTopics.jsx:13 | one `(tagCount[t] \|\| 0) + 1` update keeps keys in first-appearance order and every count exact |
| TrendingTopics.TallyFromCounts | frontend/src/components/TrendingTopics.jsx:17 | the entries read off the counting object are the tally of the tags seen |
| TrendingTopics.TallyMatches | frontend/src/components/TrendingTopics.jsx:11-14 | the inner loop counts every lower-cased match of one post into the object |
| TrendingTopics.ExtractHashtags | frontend/src/components/TrendingTopics.jsx:4-21 | the loops return exactly the functional specification `Trending`, including `[]` for missing posts |
| Sidebar.Flags | frontend/src/components/Sidebar.jsx:7-17 | nine fields are inspected |
| Sidebar.Filled | frontend/src/components/Sidebar.jsx:19 | at most nine fields are filled, and none exactly when no flag is set |
| Sidebar.Completion | frontend/src/components/Sidebar.jsx:4-21 | 0 without a user. Otherwise the integer nearest to 100 * filled / 9, always within 0..100 |
| Sidebar.CompleteIffAllFilled | frontend/src/components/Sidebar.jsx:7-20 | the meter reads 100 exactly when a user is signed in and all nine fields are filled |
| Sidebar.EmptyIffNothingFilled | frontend/src/components/Sidebar.jsx:5-20 | the meter reads 0 exactly when no user is signed in or no field is filled |
| Sidebar.CompletionMonotone | frontend/src/components/Sidebar.jsx:19-20 | filling in more fields never lowers the meter |
| HomePage.NormalizeSearch | frontend/src/pages/HomePage.jsx:32 | the needle is empty exactly when the term is blank. Otherwise it has no white space at either end, and it never has an upper-case letter |
| HomePage.VisiblePosts | frontend/src/pages/HomePage.jsx:34-46 | missing posts or an empty needle give the feed as fetched. Otherwise the result is the posts whose content, author name or author headline contains the needle without regard to case, in feed order, each occurrence kept |
| HomePage.VisibleRecommendedUsers | frontend/src/pages/HomePage.jsx:48-55 | the same narrowing for suggested users, by name or headline, each occurrence kept |
| HomePage.NormalizeIdempotent | frontend/src/pages/HomePage.jsx:32 | normalizing a normalized term changes nothing |
| HomePage.SearchIgnoresCase | frontend/src/pages/HomePage.jsx:32 | the search does not depend on the case of the typed term |
| HomePage.BlankSearchShowsAll | frontend/src/pages/HomePage.jsx:35 | a blank term shows the feed and the suggestions exactly as fetched |
| HomePage.PostWithTermInContentIsVisible | frontend/src/pages/HomePage.jsx:36-44 | a post whose content holds the term in any case stays visible |
| HomePage.UnrelatedUserIsHidden | frontend/src/pages/HomePage.jsx:50-54 | with a non-blank term, a suggested user whose name and headline both lack it is hidden |
| Navbar.ConversationsData | frontend/src/components/layout/Navbar.jsx:25-38 | nothing while signed out, the list on success, and `[]` when the request fails |
| Navbar.SumUnread | frontend/src/components/layout/Navbar.jsx:40 | the total is zero exactly when every row's count is zero, and no row's count exceeds it |
| Navbar.UnreadMessagesCount | frontend/src/components/layout/Navbar.jsx:40 | 0 when there are no conversations, otherwise the sum of the rows' unread counts |
| Navbar.UnreadNotificationCount | frontend/src/components/layout/Navbar.jsx:49 | missing exactly when the notifications are missing. Otherwise it is the number of unread notifications, so at most their number and zero exactly when all are read |
| Navbar.ReadingNotificationLowersCount | frontend/src/components/layout/Navbar.jsx:49 | reading one unread notification lowers the badge count by exactly one |
| Navbar.BadgeCountsEveryUnreadMessage | frontend/src/components/layout/Navbar.jsx:40 | over the server's conversation list, the badge equals the number of unread messages addressed to the user: each counted once, none missed |
| Navbar.MessagesBadgeIffUnread | frontend/src/components/layout/Navbar.jsx:121 | the messages badge is drawn exactly when someone sent the user a message that is still unread |
| Navbar.FailedListingHidesBadge | frontend/src/components/layout/Navbar.jsx:28-34 | a failed listing is swallowed as `[]`, so an unread message from a deleted sender leaves no badge. The corrected listing shows it |
| MessagesPage.RowIsFor | frontend/src/pages/MessagesPage.jsx:72 | comparing a row throws exactly when its user is null. Otherwise it compares the row user's id |
| MessagesPage.AnyRowFor | frontend/src/pages/MessagesPage.jsx:72 | `some` answers whether a row is for the id when all rows have users. It throws only when a row has none |
| MessagesPage.NewMessageCandidates | frontend/src/pages/MessagesPage.jsx:69-73 | every connection when conversations are missing. With all row users present, exactly the connections no row is for, in connection order, each occurrence kept. The render can fail only on a row without a user |
| MessagesPage.NoConversationsOffersAll | frontend/src/pages/MessagesPage.jsx:72 | with an empty conversation list every connection is offered |
| MessagesPage.RowWithoutUserBreaksMenu | frontend/src/pages/MessagesPage.jsx:72 | a row whose user is null makes the menu fail to render |
| MessagesPage.RowsHaveUsers | frontend/src/pages/MessagesPage.jsx:72 | when every counterpart still exists, every row of the server's list has a user, so the menu renders |
| MessagesPage.NoRowForIffUncontacted | frontend/src/pages/MessagesPage.jsx:72 | a row of the server's list is for a connection exactly when the two exchanged a message |
| MessagesPage.CandidatesAreUncontactedConnections | frontend/src/pages/MessagesPage.jsx:69-73 | over the server's list, the menu offers exactly the connections with whom no message was ever exchanged, in connection order |
| MessagesPage.InitialSelection | frontend/src/pages/MessagesPage.jsx:12-13 | the selection starts as the `userId` parameter when it is present and non-empty, and null otherwise |
| MessagesPage.Selection.constructor | frontend/src/pages/MessagesPage.jsx:11-13 | the page mounts with the address's parameters and the selection they name, and the selection is the one in the address |
| MessagesPage.Selection.Select | frontend/src/pages/MessagesPage.jsx:78-79 | selecting sets both the selection and the query string to that id, so a reload comes back to it (the same handler serves rows, lines 100-103) |
| Theme.InitialTheme | frontend/src/components/ThemeToggle.jsx:12-13 | the loaded theme is one of the two, and dark exactly when storage holds the exact dark name |
| Theme.Toggled | frontend/src/components/ThemeToggle.jsx:28 | a click gives one of the two themes, light exactly when the current one is dark |
| Theme.ToggleTwice | frontend/src/components/ThemeToggle.jsx:28 | two clicks restore either theme |
| Theme.StoredThemeRoundTrip | frontend/src/components/ThemeToggle.jsx:12-20 | a stored theme is read back as itself |
| Theme.ThemeToggle.Mount | frontend/src/components/ThemeToggle.jsx:9-21 | after mounting, the theme is the one storage implies, and it is both stored and applied. No other storage key changes |
| Theme.ThemeToggle.ApplyTheme | frontend/src/components/ThemeToggle.jsx:18-21 | the effect writes the current theme to the document and to storage, and only to that key |
| Theme.ThemeToggle.Click | frontend/src/components/ThemeToggle.jsx:28 | a click flips the theme and keeps it stored and applied. A later mount reads the new theme back |

## Left out

- Database and HTTP plumbing are not modelled: queries, `populate` projections, `res.status(...).json(...)` and the authentication middleware. Request inputs are parameters, and statuses are a `Status` value.
- Malformed ObjectId strings are not modelled. The database rejects them with a cast error, which the handlers answer with 500. Ids here are opaque strings.
- Mongo's `distinct` order is fixed as first appearance in the store. Any order yields the same rows, and the rows are sorted afterwards; but rows whose newest messages share a `createdAt` keep `distinct`'s order through the stable sort, so their relative order depends on that choice.
- `Promise.all` runs the per-row queries concurrently. The model evaluates them in order, which gives the same answer because the queries only read.
- The database clock is a parameter of `SendMessage`. The store requires it not to run backwards (`ClockAt`).
- The frontend's network requests, the query cache and rendering are not modelled. Fetched data is a parameter: a `Result` for the conversation request, an `Option` for data that may be missing.
- `toLowerCase` is modelled on ASCII letters only. `\w` is ASCII, as it is in a regular expression without the `u` flag.
- Sidebar.Completion: `Math.round` over floating point is computed on integers. 100 * filled / 9 never ends in exactly .5, so the result is the same.
- Navbar.UnreadMessagesCount: the `|| 0` fallbacks apply only to a missing or non-numeric `unreadCount`. The server always sends a natural number, so they are not modelled.
- Navbar.UnreadNotificationCount: `read` is a boolean. A missing flag reads as false, which `!notif.read` also treats as unread.
- MessagesPage.Selection: the page reads the address only for its initial state (MessagesPage.jsx:12-13). A browser navigation that changes `userId` without a click would leave the selection and the address out of step; the model has no such step, so `Valid` holds only over mounting and the click handlers.
- The "New Message" menu is drawn only when `connections?.length > 0` (MessagesPage.jsx:62). That is a rendering condition and has no contract here.
- The connection-requests badge (`connectionRequests?.data?.length`, Navbar.jsx:50 and 91) reduces to `ShowBadge` over an optional length. It has no contract of its own.
- Conversations.Precedes: the source comparator answers 1 when both rows lack a preview, which is not a consistent order. Every listed row has a preview, so this never arises.
- `ConversationList.jsx` crashes on a row whose user is null. It is not part of this model; the same crash in the "New Message" menu is modelled.
- `ChatWindow.jsx`, image upload (`cloudinary.js`) and the layout components are not part of this model.

## Findings

| source | as written | input that shows it | evidently intended | confidence | as-written member | corrected member |
|---|---|---|---|---|---|---|
| backend/controllers/message.controller.js:42 | the preview's `senderId` is read as `lastMessage.sender._id`. When the sender no longer exists, `populate` leaves `sender` null, the read throws, and the whole listing answers 500 | user `c` sends `u` the message "hi" and is then deleted; `u` asks for their conversations | the row is listed with no profile and a preview whose sender id is the message's stored sender id. The other rows still load | not executed | Conversations.DeletedSenderFailsListing | Conversations.ListConversationsRows |
