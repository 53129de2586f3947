# pybbm client routing, unread state and template helpers in Dafny

This project models the parts of pybbm that carry rules of their own. pybbm is a
Django forum application, and these rules sit in its per-client routing layer
and its template tags:

- **Client template search path** (`pybb/loaders.py`). `ClientTemplateLoader`
  turns one template name or a list of names into the ordered list of
  candidate paths. The names prefixed with the client's template directory come
  first, then the bare names. This is a class with a nested loop, proved
  against the function `SearchPath`.
- **Client router** (`pybb/middleware.py`). `PybbRouterMiddleware.process_request`
  resets the request's client attributes, then applies the first configured
  path prefix that the request path starts with. The request is a class whose
  fields the method assigns. The settings mapping is a sequence of
  `(prefix, config)` pairs in iteration order. The language rule of
  `PybbMiddleware.process_request` is modelled beside it, on a `Profile`
  object.
- **Permission decorators** (`pybb/decorators.py`). `permissions_decorator`
  replaces a view class's `dispatch`. On every call, the new dispatch wraps the
  original one in the request's configured decorators. They are applied in
  reverse, so the first-listed one is outermost. Dispatch entry points are terms
  (`Dispatch`), and the composition is the fold `Compose`.
- **Unread state** (`pybb/templatetags/pybb_tags.py`). There are three filters:
  - `pybb_is_topic_unread` decides for one topic;
  - `pybb_topic_unread` sets `unread` on every topic of an array in three passes;
  - `pybb_forum_unread` does the same for every forum of an array, and recurses
    into the child forums of each forum a mark covers.

  The tracker tables are sequences of records in query order. Forums form a
  finite tree (`Forum.children`), so the recursion is well founded. Each
  annotator is a method on an `array`, proved against a specification function
  on sequences. The properties are lemmas about that function.
- **Template helpers** (`pybb/templatetags/pybb_tags.py`):
  - the inline pagination of a topic;
  - the argument parser of the `cinclude` tag. This is a method with the
    tag's `while` loop, proved against `CincludeSpec`. `token_kwargs` is
    included, without its legacy syntax;
  - the relative-time choice of `PybbTimeNode.render`.

Timestamps and durations are whole seconds. Optional values (`None` in Python)
are `Option`. `'%s' % None` is the text `None`, so a loader built with no
directory yields `None/<name>`. The code is Python 2: ordering `None` against a
datetime raises `TypeError`. `pybb_topic_unread` does exactly that when a topic
mark names a topic without `updated`. The model treats this as an error outcome
(`failed`) and states how much of the array was already annotated at that point.

At exactly 3600 seconds elapsed, `PybbTimeNode.render` falls through to absolute
formatting, like every other non-relative case (`PybbTime.TimeBucket`).

## Model

| member | source | states |
|---|---|---|
| Loaders.ClientTemplateLoader.constructor | pybb/loaders.py:12-13 | the loader keeps the client template directory it is given |
| Loaders.ClientTemplateLoader.TemplateDirs | pybb/loaders.py:38-44 | the directory list is exactly `[client_templates]` |
| Loaders.ClientTemplateLoader.TemplateNames | pybb/loaders.py:23-36 | a single name is a one-element list of names; the result has 2·\|names\| entries; entry i is `<dir>/<names[i]>` in input order; the result ends with the bare names in input order |
| Loaders.NameList | pybb/loaders.py:28-29 | a single name becomes a one-element list; its meaning is stated by `ClientTemplateLoader.TemplateNames` |
| Loaders.Show | pybb/loaders.py:34 | part of `Join`: `'%s'` of an optional directory, `None` shown as `None`; stated by `QualifiedShape` and `ClientAExample` |
| Loaders.Prefixed | pybb/loaders.py:33-34 | part of `Qualified`: the inner `for p in paths` loop for one name; stated by `QualifiedShape` |
| Loaders.Join | pybb/loaders.py:34 | `'%s/%s' % (p, t)`, with `None` shown as `None`; its meaning is stated by `QualifiedShape` |
| Loaders.Qualified | pybb/loaders.py:32-34 | the names-outer, directories-inner block of joined paths; its meaning is stated by `QualifiedShape` |
| Loaders.SearchPath | pybb/loaders.py:30-35 | the qualified block followed by the bare names; its meaning is stated by `SingleDirectorySearchPath` and `ClientTemplateLoader.TemplateNames` |
| Loaders.QualifiedShape | pybb/loaders.py:30-34 | the qualified block has \|names\|·\|dirs\| entries, and entry i·\|dirs\|+j is `dirs[j]/names[i]` (names outer, directories inner) |
| Loaders.SingleDirectorySearchPath | pybb/loaders.py:30-35 | with the single directory of `template_dirs`, the search path has length 2·\|names\|, qualified names first and bare names last |
| Loaders.ClientAExample | pybb/loaders.py:23-36 | directory `client_a` and name `index.html` give `["client_a/index.html", "index.html"]` |
| Middleware.FirstPrefixFrom | pybb/middleware.py:55-56 | the first entry from a start position whose prefix the path starts with, or none when no later entry matches |
| Middleware.FirstMatch | pybb/middleware.py:54-56 | a match exists exactly when the path is non-empty and some configured prefix is a prefix of it; the match is the first such entry |
| Middleware.EarlierPrefixWins | pybb/middleware.py:55-67 | when two entries match, the chosen one is never after the earlier of them |
| Middleware.OverlappingPrefixExample | pybb/middleware.py:55-67 | with `/forum/` earlier than `/forum/a/` in iteration order, the path `/forum/a/topic` routes to `/forum/` |
| Middleware.HasDecorators | pybb/middleware.py:63 | the configured decorator list is present and non-empty; its use is stated by `RouteRequest` |
| Middleware.RouteRequest | pybb/middleware.py:49-67 | `pybb_templates` ends None. Without a match, client, title and decorators are None, and `pybb_template` and `pybb_client_templates` keep their old values. On the first match, client, title and base template come from its config, a fresh loader holds its `client_templates`, and decorators are set only for a non-empty list. Session and language are unchanged |
| Middleware.LanguageRule | pybb/middleware.py:30-37 | an empty profile language becomes the request language and is saved, with no session change; a non-empty one is kept and written to the session exactly when it differs from the request language |
| Middleware.LanguageRuleSettles | pybb/middleware.py:30-37 | applying the rule again keeps the language and the session outcome, and saves again only when both languages are empty |
| Middleware.ApplyProfileLanguage | pybb/middleware.py:28-37 | profile language, save count, session entry `django_language` and request language change exactly as `LanguageRule` decides |
| Decorators.Compose | pybb/decorators.py:25-27 | the fold of the decorator list around a dispatch, the first-listed outermost. Its properties are stated by `ComposeLayers`, `ComposeAppend` and `TwoDecoratorsNest` |
| Decorators.ComposeLayers | pybb/decorators.py:23-27 | the composed dispatch carries the factories' decorators in list order, outermost first, around the original dispatch |
| Decorators.ComposeAppend | pybb/decorators.py:25-27 | composing a concatenated list is composing the first part around the composition of the second |
| Decorators.TwoDecoratorsNest | pybb/decorators.py:25-27 | the list `[A, B]` gives `A(B(orig))` |
| Decorators.EffectiveDispatch | pybb/decorators.py:23-27 | without a decorator loader the dispatch is the original and no factory is invoked; with one, it is the fold of the list, and every factory is invoked once, last-listed first |
| Decorators.PermissionsDecorator | pybb/decorators.py:12-30 | returns the same class object, whose `dispatch` is now the permission-aware wrapper of the old one |
| Decorators.CallDispatch | pybb/decorators.py:15-28 | a call through the wrapper rebuilds the composition from the request and invokes it with the same request and arguments, invoking every factory once, last-listed first; without decorators it invokes the original dispatch unchanged and no factory |
| Unread.LastUpdate | pybb/templatetags/pybb_tags.py:149 | `updated or created`; its use is stated by `IsTopicUnread`, `ForumMarkCoversIff` and `TopicUnreadChar` |
| Unread.IsTopicUnread | pybb/templatetags/pybb_tags.py:144-159 | false for an anonymous user; otherwise true exactly when no forum tracker of the user for the topic's forum, and no topic tracker of the user for the topic, is at or after `updated or created`. Its partner is `TopicUnreadAgreesWithFilter` |
| Unread.TopicIds | pybb/templatetags/pybb_tags.py:183-185 | the topic ids behind `topic__in` and `topic_dict`; stated by `IndexById`, `UserTopicMarks` and `TopicUnreadChar` |
| Unread.ForumIdsOf | pybb/templatetags/pybb_tags.py:173 | `forums_ids`; stated by `UserForumMarks` and `ForumMarkCoversIff` |
| Unread.ForumIds | pybb/templatetags/pybb_tags.py:201-205 | the forum ids behind `forum__in` and `forum_dict`; stated by `ForumMarkStep` and `ForumUnreadChar` |
| Unread.IndexById | pybb/templatetags/pybb_tags.py:185 | the id dictionary has exactly the list's ids as keys, and each id maps to its last position in the list |
| Unread.IndexByIdAt | pybb/templatetags/pybb_tags.py:185 | a position's id is in the dictionary, and is mapped to that position exactly when the position is the id's last |
| Unread.UserForumMarks | pybb/templatetags/pybb_tags.py:176 | the forum trackers kept are exactly the user's trackers for forums of the list |
| Unread.UserTopicMarks | pybb/templatetags/pybb_tags.py:183-184 | the topic trackers kept are exactly the user's trackers for topics of the list |
| Unread.TimeStampByForum | pybb/templatetags/pybb_tags.py:174-176 | a forum has an entry exactly when some mark names it, and the entry is the time stamp of its last mark |
| Unread.TopicUnreadSpec | pybb/templatetags/pybb_tags.py:163-189 | everything the filter does to its list; its properties are stated by `TopicUnreadChar`, `TopicUnreadIdempotent`, `TopicUnreadIgnoresOldFlags` and `TopicUnreadAgreesWithFilter` |
| Unread.MarkAllUnread | pybb/templatetags/pybb_tags.py:170-171 | every flag set; its effect is stated by `SetAllUnread` and `TopicUnreadChar` |
| Unread.ApplyForumMarks | pybb/templatetags/pybb_tags.py:177-181 | the forum pass; its effect is stated by `ClearByForumMarks`, `TopicUnreadChar` and `ForumMarkCoversIff` |
| Unread.ApplyTopicMark | pybb/templatetags/pybb_tags.py:186-188 | one mark keeps the list's length; the pass as a whole is stated by `ApplyTopicMarksChar` |
| Unread.ApplyTopicMarks | pybb/templatetags/pybb_tags.py:186-188 | the third pass keeps the list's length; its effect is stated by `ApplyTopicMarksChar` |
| Unread.FailureSticks | pybb/templatetags/pybb_tags.py:186-188 | once a mark has raised, later marks change nothing |
| Unread.ApplyTopicMarksChar | pybb/templatetags/pybb_tags.py:186-188 | the third pass changes flags only. It fails exactly when some mark's topic has no `updated`. Otherwise it clears exactly the positions that some mark maps to and whose `updated` is not after that mark |
| Unread.TopicUnreadChar | pybb/templatetags/pybb_tags.py:163-189 | same elements in the same order, flags aside. Nothing changes for an anonymous user. For an authenticated user it fails exactly when a topic mark of the user meets a topic without `updated`. Otherwise a topic ends read exactly when its forum mark covers `updated or created` or a topic mark covers `updated` |
| Unread.FailsIff | pybb/templatetags/pybb_tags.py:183-187 | the third pass's failure condition equals the failure condition stated over the topic list and the tracker table |
| Unread.ClearedIff | pybb/templatetags/pybb_tags.py:183-188 | the third pass's clearing condition for a position equals the topic-mark condition stated over the list and the tracker table |
| Unread.TopicUnreadIgnoresOldFlags | pybb/templatetags/pybb_tags.py:167-189 | for an authenticated user, the whole outcome does not depend on the flags the topics already carry; for every user, the failure outcome does not |
| Unread.TopicUnreadIdempotent | pybb/templatetags/pybb_tags.py:167-189 | annotating the result again gives the same outcome for every input; when the first annotation raised, the second raises too and leaves the same flags |
| Unread.TopicUnreadAgreesWithFilter | pybb/templatetags/pybb_tags.py:144-159 | when the annotator completes on distinct topics, and there is one tracker per user and forum, its flag for each topic is `pybb_is_topic_unread` of that topic, for topics with and without `updated` |
| Unread.TopicUnreadCompletes | pybb/templatetags/pybb_tags.py:186-188 | the annotator never raises on a list whose topics all have `updated` |
| Unread.ForumMarkCoversIff | pybb/templatetags/pybb_tags.py:175-181 | with one tracker per user and forum, the forum pass reads a topic exactly when the user's tracker for its forum is not older than `updated or created` |
| Unread.SetAllUnread | pybb/templatetags/pybb_tags.py:170-171 | every topic's flag becomes true |
| Unread.ClearByForumMarks | pybb/templatetags/pybb_tags.py:178-181 | the array becomes the forum pass of its old contents |
| Unread.ClearByTopicMarks | pybb/templatetags/pybb_tags.py:183-188 | the array and the error outcome are the third pass of its old contents |
| Unread.TopicUnread | pybb/templatetags/pybb_tags.py:163-189 | the array and the error outcome are `TopicUnreadSpec` of the old contents, and the properties above hold of it |
| Unread.ChildrenSmaller | pybb/templatetags/pybb_tags.py:209 | the child forums of a listed forum form a smaller forest, so the recursion ends |
| Unread.Covers | pybb/templatetags/pybb_tags.py:208 | `updated is None or updated <= time_stamp`; its use is stated by `ForumMarkStep` and `ForumUnreadChar` |
| Unread.AnyUnread | pybb/templatetags/pybb_tags.py:209 | `any(f.unread for f in ...)`; its use is stated by `ChildrenRead` and `ForumUnreadChar` |
| Unread.ReadByMarks | pybb/templatetags/pybb_tags.py:206-210 | a forum a mark clears: the dictionary keeps it, a mark covers it and no child forum ends unread; its meaning is stated by `ForumUnreadChar` |
| Unread.ForumUnreadSpec | pybb/templatetags/pybb_tags.py:193-211 | same length, and only flags change. Nothing changes for an anonymous user. For an authenticated user, a forum without topics is never unread |
| Unread.FlagsAfter | pybb/templatetags/pybb_tags.py:199-210 | the flags after the first pass and a prefix of the marks keep the list's length; how each mark changes them is stated by `ForumMarkStep` and `FlagsAfterEnds` |
| Unread.SetForumFlags | pybb/templatetags/pybb_tags.py:199-200 | every forum's flag becomes `topic_count > 0` |
| Unread.ForumMarkStep | pybb/templatetags/pybb_tags.py:206-210 | one more mark clears only the dictionary's forum for its id, and only when the mark covers it and no child forum is unread |
| Unread.FlagsAfterEnds | pybb/templatetags/pybb_tags.py:199-210 | with no marks the flags are the first pass; with all of the user's marks they are `ForumUnreadSpec` |
| Unread.ChildrenRead | pybb/templatetags/pybb_tags.py:209 | the child forums are annotated afresh, and the result is that none of them is unread |
| Unread.ForumUnread | pybb/templatetags/pybb_tags.py:193-211 | the array becomes `ForumUnreadSpec` of its old contents |
| Unread.ForumUnreadChar | pybb/templatetags/pybb_tags.py:199-210 | for an authenticated user, a forum ends unread exactly when it has topics and it is not the case that all of these hold: it is the dictionary's object for its id; a tracker of the user has `updated` None or not after the tracker; none of its child forums ends unread |
| Unread.UnreadChildKeepsParentUnread | pybb/templatetags/pybb_tags.py:209-210 | an unread child forum keeps a forum with topics unread, whatever its marks |
| Unread.UntrackedForumUnread | pybb/templatetags/pybb_tags.py:200-210 | without a covering tracker, a forum is unread exactly when it has topics |
| Unread.ForumUnreadIdempotent | pybb/templatetags/pybb_tags.py:197-211 | annotating an annotated forum list again changes nothing |
| Unread.UnreadChildExample | pybb/templatetags/pybb_tags.py:193-211 | a forum marked read at its update time (a covering mark) stays unread when its child forum has an unread topic |
| Pagination.PageCount | pybb/templatetags/pybb_tags.py:216 | the page count is the ceiling of posts over page size: its pages hold every post, none is empty, and it is 0 exactly when there are no posts |
| Pagination.PageCountIsCeiling | pybb/templatetags/pybb_tags.py:216 | any page count with those two properties is `PageCount` |
| Pagination.PagesUpTo | pybb/templatetags/pybb_tags.py:218 | `range(1, n + 1)` is the pages 1 to n in order |
| Pagination.InlinePagination | pybb/templatetags/pybb_tags.py:215-219 | up to five pages gives every page in order, empty exactly when there are no posts; otherwise `[1, 2, 3, 4, '...', last]`; every link is a page in range, and the last link is the last page |
| Pagination.PaginationExamples | pybb/templatetags/pybb_tags.py:215-219 | at ten posts per page: 95 posts give `1 2 3 4 ... 10`; 30 posts give `1 2 3`; 31 posts give `1 2 3 4`; no posts give no links |
| PybbTime.DeltaDays | pybb/templatetags/pybb_tags.py:61 | the `days` of the elapsed `timedelta`, floored; its meaning is stated by `DeltaSeconds` |
| PybbTime.DeltaSeconds | pybb/templatetags/pybb_tags.py:61 | the `seconds` of the elapsed `timedelta` is below a day, and with `days` it makes up the elapsed time |
| PybbTime.TimeBucket | pybb/templatetags/pybb_tags.py:61-82 | seconds exactly when 0 ≤ elapsed < 60, with the elapsed seconds; minutes exactly when 60 ≤ elapsed < 3600, with the whole minutes; absolute formatting for every negative elapsed time and from 3600 on |
| PybbTime.NatToString | pybb/templatetags/pybb_tags.py:73 | `'%d'` of a count is a non-empty string of decimal digits without leading zeros, and is `0` exactly for zero |
| PybbTime.NatToStringValue | pybb/templatetags/pybb_tags.py:73 | reading the digits back gives the count |
| PybbTime.RenderRelative | pybb/templatetags/pybb_tags.py:66-82 | the relative buckets render as `'<count> <message>'`, and the absolute bucket has no relative text |
| PybbTime.BucketExamples | pybb/templatetags/pybb_tags.py:61-82 | 30 s give `30 seconds ago`; 90 s give `1 minutes ago`; 3600 s and −1 s fall through |
| Cinclude.TagBits | pybb/templatetags/pybb_tags.py:418 | what `token.split_contents()` yields: the tag name first and no empty bit; the `requires` of `CincludeSpec` and `Cinclude` |
| Cinclude.IsWordChar | pybb/templatetags/pybb_tags.py:431 | part of `kwarg_re`: the ASCII `\w` Django uses; stated by `WordPrefix`, `KwargSplit` and `KwargJoin` |
| Cinclude.WordPrefix | pybb/templatetags/pybb_tags.py:431 | the leading run of word characters of a bit |
| Cinclude.IsKwarg | pybb/templatetags/pybb_tags.py:431 | a bit `kwarg_re` matches with its key group set; its meaning is stated by `KwargSplit` and `KwargJoin` |
| Cinclude.KwargKey | pybb/templatetags/pybb_tags.py:431 | the key group of a keyword bit; stated by `KwargSplit` and `KwargJoin` |
| Cinclude.KwargValue | pybb/templatetags/pybb_tags.py:431 | the value group of a keyword bit; stated by `KwargSplit` and `KwargJoin` |
| Cinclude.KwargSplit | pybb/templatetags/pybb_tags.py:431 | a keyword bit is a non-empty word key, `=`, and a non-empty value |
| Cinclude.KwargJoin | pybb/templatetags/pybb_tags.py:431 | `key=value` with a word key and a non-empty value is a keyword bit with that key and value |
| Cinclude.OptionNamesNotKwargs | pybb/templatetags/pybb_tags.py:430-436 | `with` and `only` are not keyword bits |
| Cinclude.TokenKwargs | pybb/templatetags/pybb_tags.py:431 | never gives back more bits than it was given; which bits it takes is stated by `TokenKwargsSplit`, and its dictionary by `TokenKwargsKeys`, `TokenKwargsLastValue` and `TokenKwargsKeeps` |
| Cinclude.TokenKwargsSplit | pybb/templatetags/pybb_tags.py:431-434 | takes a leading run of keyword bits and stops at the first other bit; the remaining bits are a suffix; the dictionary is empty exactly when no bit was taken |
| Cinclude.Taken | pybb/templatetags/pybb_tags.py:431 | the number of bits `token_kwargs` takes is at most the number of bits |
| Cinclude.NamesTail | pybb/templatetags/pybb_tags.py:431 | the keys a run of keyword bits names are the first bit's key and those the rest names |
| Cinclude.TokenKwargsKeys | pybb/templatetags/pybb_tags.py:431 | the dictionary's keys are exactly the keys given and the keys of the bits taken |
| Cinclude.TokenKwargsLastValue | pybb/templatetags/pybb_tags.py:431 | a key named by a taken bit holds the value of the last taken bit with that key |
| Cinclude.TokenKwargsKeeps | pybb/templatetags/pybb_tags.py:431 | a key given and named by no taken bit keeps the value it was given |
| Cinclude.ParseOption | pybb/templatetags/pybb_tags.py:426-440 | one loop round never gives back more bits than it was given, and never raises the missing-name error; the rest of its behaviour is stated by `ParseOptionFacts` |
| Cinclude.ParseOptionFacts | pybb/templatetags/pybb_tags.py:426-440 | a round succeeds only on a new `with` or `only`. It records that option, keeps the earlier entries, and passes over keyword bits only. A new `with` succeeds exactly when the next bit is a keyword bit, and then records the keywords of `token_kwargs` and leaves the bits after them, which do not start with a keyword bit. A new `only` records the flag and passes over nothing. Any other new option raises the unknown-option error, and an option already given raises the repeated-option error |
| Cinclude.ParseOptions | pybb/templatetags/pybb_tags.py:425-440 | the loop never raises the missing-name error |
| Cinclude.Quoted | pybb/templatetags/pybb_tags.py:444 | the path starts and ends with the same quote character; its use is stated by `CincludeSuccess` |
| Cinclude.Unquote | pybb/templatetags/pybb_tags.py:446 | `path[1:-1]`; its use is stated by `CincludeSuccess` |
| Cinclude.MakeNode | pybb/templatetags/pybb_tags.py:441-450 | the node built from the path and the options. Its properties are stated by `CincludeSuccess` and `MakeNodeExample` |
| Cinclude.CincludeSpec | pybb/templatetags/pybb_tags.py:418-450 | fewer than two bits raise the missing-name error, and nothing else does |
| Cinclude.Cinclude | pybb/templatetags/pybb_tags.py:418-450 | the tag returns or raises exactly `CincludeSpec` of its bits |
| Cinclude.ParseOptionsWellFormed | pybb/templatetags/pybb_tags.py:425-440 | the options dictionary holds only `with`, with at least one keyword, and `only` |
| Cinclude.ParseOptionsRecords | pybb/templatetags/pybb_tags.py:425-442 | after a successful loop, an option is recorded exactly when it was given |
| Cinclude.ParseOptionsBits | pybb/templatetags/pybb_tags.py:425-440 | every bit a successful loop passes over is `with`, `only` or a keyword bit |
| Cinclude.SkippedAreKwargs | pybb/templatetags/pybb_tags.py:431 | every bit before a `with` round is the popped option, a bit left after the round, or a keyword bit |
| Cinclude.MemberAfterStep | pybb/templatetags/pybb_tags.py:426-440 | a non-keyword bit occurs before a round exactly when it is the popped option or occurs after the round |
| Cinclude.ParseOptionsFailure | pybb/templatetags/pybb_tags.py:425-440 | an unknown option is among the options and is neither `with` nor `only`; a `with` without keywords occurs among them; a repeated option is `with` or `only` and occurs twice |
| Cinclude.RepeatAfterStep | pybb/templatetags/pybb_tags.py:427-429 | a repetition found after a round is a repetition in the bits before it |
| Cinclude.CincludeSuccess | pybb/templatetags/pybb_tags.py:441-450 | `isolated_context` is set exactly when `only` is given. The extra context is the keyword dictionary of the run after `with`, and is non-empty exactly when `with` is given. A quoted path passes as a literal name without its quotes; any other path passes as an expression. Every option bit is `with`, `only` or a keyword bit, and neither `with` nor `only` occurs twice |
| Cinclude.RepeatedAcrossStep | pybb/templatetags/pybb_tags.py:426-440 | an option occurs twice before a round exactly when it is the popped option and occurs again after the round, or occurs twice after it |
| Cinclude.ParseOptionsOnce | pybb/templatetags/pybb_tags.py:425-440 | a successful loop meets `with` and `only` at most once each, and never meets an option recorded before it |
| Cinclude.RepeatedOptionRejected | pybb/templatetags/pybb_tags.py:425-440 | a tag that names `with` or `only` twice is rejected |
| Cinclude.OptionRunSuffix | pybb/templatetags/pybb_tags.py:425-440 | the bits left after a round, which do not start with a keyword bit, are again an option run |
| Cinclude.ParseOptionsRun | pybb/templatetags/pybb_tags.py:425-440 | a successful loop reads an option run: `with`, `only` and keyword bits, each option at most once, `with` followed by a keyword bit, and every keyword bit after `with` or another keyword bit |
| Cinclude.RunParses | pybb/templatetags/pybb_tags.py:425-440 | every option run parses successfully |
| Cinclude.CincludeAcceptsIff | pybb/templatetags/pybb_tags.py:418-450 | a tag is accepted exactly when it names a path and its options are an option run; so `with` without keywords, a stray keyword bit, an unknown option and a repeated option are each rejected |
| Cinclude.ParseOptionsKeeps | pybb/templatetags/pybb_tags.py:425-440 | a successful loop keeps every entry recorded before it |
| Cinclude.ParseOptionsWithValue | pybb/templatetags/pybb_tags.py:430-434 | the `with` entry holds the keywords `token_kwargs` takes after the first `with` |
| Cinclude.CincludeFailure | pybb/templatetags/pybb_tags.py:419-440 | a failing tag with a path fails for a reason found among its options, as `ParseOptionsFailure` states |
| Cinclude.TokenKwargsExample | pybb/templatetags/pybb_tags.py:431 | `bar="BAZZ!"` followed by `only` yields `{bar: "BAZZ!"}` and leaves `only` |
| Cinclude.OnlyStepExample | pybb/templatetags/pybb_tags.py:435-440 | `only` on its own records `only` |
| Cinclude.WithStepExample | pybb/templatetags/pybb_tags.py:430-440 | `with bar="BAZZ!"` records the keyword and leaves `only` |
| Cinclude.MakeNodeExample | pybb/templatetags/pybb_tags.py:441-447 | the `with … only` form of line 416, with the keyword of line 410, on a quoted path gives a literal, isolated node with that keyword |
| Cinclude.CincludeWithOnlyExample | pybb/templatetags/pybb_tags.py:406-416 | the `with … only` form of line 416, with the keyword of line 410: `{% cinclude "foo/some_include" with bar="BAZZ!" only %}` gives a literal, isolated node with `bar` |
| Cinclude.CincludeExpressionExample | pybb/templatetags/pybb_tags.py:448-450 | an unquoted path is a filter expression |
| Cinclude.MissingTemplateNameExample | pybb/templatetags/pybb_tags.py:419-422 | a tag without a path raises the missing-name error |
| Cinclude.RepeatedOptionExample | pybb/templatetags/pybb_tags.py:427-429 | `only only` raises the repeated-option error |
| Cinclude.WithoutKeywordsExample | pybb/templatetags/pybb_tags.py:430-434 | `with only` raises the no-keywords error; the general rule is stated by `ParseOptionFacts` and `CincludeAcceptsIff` |
| Cinclude.UnknownOptionExample | pybb/templatetags/pybb_tags.py:437-439 | the option `bogus` raises the unknown-option error; the general rule is stated by `ParseOptionFacts` and `CincludeAcceptsIff` |

## Left out

- `PybbMiddleware` profile lookup and lazy creation through `user_saved` (lines 13-26). The model takes the profile as given for an authenticated user.
- `translation.get_language_from_request` is a parameter of `ApplyProfileLanguage`. `translation.activate` is left out, and `translation.get_language()` is taken to return the language just activated.
- Saving a profile is a counter, and the session is a map. Persistence of either is not modelled.
- `PermissionDecoratorLoader` is imported by `pybb/middleware.py` from `pybb.loaders`, but `pybb/loaders.py` does not define it. It is modelled as the record of the configured decorator references. Resolving those references to callables is not modelled.
- The decorator factories and `method_decorator` are opaque names. A decorated dispatch is a term, not a callable, and calling the view is an `Invocation` record.
- The ORM querysets (`filter`, `select_related`, `__in`, `.exists()`) are sequences of tracker records in query order. Their filters are functions over those sequences.
- `ClientTemplateLoader.template` and `select_template`, `ClientIncludeNode.render` with its `TEMPLATE_DEBUG` handling, `load_perms_filters`, `friendly_load` and `if_has_tag`: these are template-engine I/O or reflection.
- `pybb/feeds.py` and `pybb/context_processors.py`: they only delegate to Django or copy settings.
- `pybbm_calc_topic_views`, `pybb_topic_poll_not_voted`, `pybb_get_latest_*`, `pybb_link`, `pybb_get_profile`, `endswith` and the deprecated permission filters: these are thin calls into the cache, the ORM or `perms`.
- `PybbTimeNode`: `tznow()`, the process time zone (`time.daylight`, `time.altzone`, `time.timezone`), the profile's time-zone offset, the today and yesterday windows, `strftime` and `dateformat.format`. These need real clocks, locale data or time zone data. The absolute bucket stands for all of them.
- `PybbTimeNode`: pytils pluralisation and `ugettext`. The messages are parameters of `RenderRelative`.
- PybbTime.TimeBucket: times are whole seconds, so a `timedelta` with sub-second parts is not modelled.
- Pagination.PageCount: computes the ceiling exactly. The source divides in floating point, and that rounding for very large post counts is not modelled.
- `PYBB_TOPIC_PAGE_SIZE` comes from `pybb/defaults.py`, which is not part of this model. It is a positive parameter.
- Cinclude.TokenKwargs: `parser.compile_filter` of a keyword's value is not modelled, so values stay their source text. The legacy `value as key` syntax is off here (`support_legacy=False`). `\w` is taken as ASCII letters, digits and `_`. A bit holds no line break.
- Cinclude.CincludeSpec: a path that is not quoted stays its source text, in place of `parser.compile_filter(path)`.
- Loaders.ClientTemplateLoader.TemplateNames: takes a string or a list. Other iterables, such as a generator consumed by its first pass, are not modelled.
- Middleware.RouteRequest: an attribute never assigned and one set to `None` are the same. The source's fresh request has neither `pybb_template` nor `pybb_client_templates` until a route matches.
- Unread.TopicUnread and Unread.ForumUnread: every array slot is its own object. The source sets `.unread` on shared objects, so a list holding one object at two positions would have both entries updated; the model updates only the entry the id dictionary picks (the last with that id). Query results do not repeat objects.
- Decorators.CallDispatch: an `Invocation` keeps the request and the positional arguments only. The view instance `self` and the keyword arguments, which the source passes through unchanged, are not modelled.
