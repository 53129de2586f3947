/**
 * The unread-state template filters of `pybb/templatetags/pybb_tags.py`:
 * `pybb_is_topic_unread` for one topic, and the two annotators that set an
 * `unread` flag on every topic or forum of a list, in place, by comparing
 * update times with the user's forum-level and topic-level read trackers.
 *
 * Timestamps are whole seconds. The tracker tables are sequences of records in
 * query order; a filter over them keeps that order.
 */
module Unread {
  import opened Wrappers

  datatype User = User(id: int, authenticated: bool)

  /** A topic; `unread` is `None` until an annotator sets it. */
  datatype Topic = Topic(id: int, forumId: int, created: int, updated: Option<int>, unread: Option<bool>)

  /** A forum with its child forums (a finite tree); `unread` as for topics. */
  datatype Forum = Forum(id: int, topicCount: int, updated: Option<int>, children: seq<Forum>, unread: Option<bool>)

  /** "User `userId` has read forum `forumId` up to `timeStamp`." */
  datatype ForumMark = ForumMark(userId: int, forumId: int, timeStamp: int)

  /** "User `userId` has read topic `topicId` up to `timeStamp`." */
  datatype TopicMark = TopicMark(userId: int, topicId: int, timeStamp: int)

  /** `topic.updated or topic.created`. */
  function LastUpdate(t: Topic): int {
    t.updated.GetOr(t.created)
  }

  // ---------------------------------------------------------------------------
  // pybb_is_topic_unread

  /** `pybb_is_topic_unread`: an authenticated user has not read the topic when no
      forum tracker for its forum and no topic tracker for it is at or after its
      last update. */
  predicate IsTopicUnread(topic: Topic, user: User, forumTrackers: seq<ForumMark>, topicTrackers: seq<TopicMark>) {
    && user.authenticated
    && !(exists m | m in forumTrackers ::
           m.forumId == topic.forumId && m.userId == user.id && m.timeStamp >= LastUpdate(topic))
    && !(exists m | m in topicTrackers ::
           m.topicId == topic.id && m.userId == user.id && m.timeStamp >= LastUpdate(topic))
  }

  // ---------------------------------------------------------------------------
  // Queries and the dictionaries built from them

  function TopicIds(ts: seq<Topic>): seq<int> {
    seq(|ts|, i requires 0 <= i < |ts| => ts[i].id)
  }

  function ForumIdsOf(ts: seq<Topic>): seq<int> {
    seq(|ts|, i requires 0 <= i < |ts| => ts[i].forumId)
  }

  function ForumIds(fs: seq<Forum>): seq<int> {
    seq(|fs|, i requires 0 <= i < |fs| => fs[i].id)
  }

  /** Position `i` holds the last occurrence of its id: it is the object a
      dictionary keyed by id keeps. */
  predicate IsLastId(ids: seq<int>, i: nat)
    requires i < |ids|
  {
    forall j :: i < j < |ids| ==> ids[j] != ids[i]
  }

  /** `dict((x.id, x) for x in list)` as a map from id to position: later
      occurrences of an id replace earlier ones. */
  function IndexById(ids: seq<int>): (index: map<int, nat>)
    ensures forall k :: k in index <==> k in ids
    ensures forall k | k in index :: index[k] < |ids| && ids[index[k]] == k && IsLastId(ids, index[k])
    decreases |ids|
  {
    if ids == [] then map[]
    else IndexById(ids[..|ids| - 1])[ids[|ids| - 1] := |ids| - 1]
  }

  /** The dictionary keeps position `i` for its id exactly when `i` is the last
      occurrence of that id. */
  lemma IndexByIdAt(ids: seq<int>, i: nat)
    requires i < |ids|
    ensures ids[i] in IndexById(ids)
    ensures IndexById(ids)[ids[i]] == i <==> IsLastId(ids, i)
  {
  }

  /** `ForumReadTracker.objects.filter(user=user, forum__in=forumIds)`. */
  function UserForumMarks(trackers: seq<ForumMark>, user: User, forumIds: seq<int>): (r: seq<ForumMark>)
    ensures forall m :: m in r <==> m in trackers && m.userId == user.id && m.forumId in forumIds
    decreases |trackers|
  {
    if trackers == [] then []
    else
      var rest := UserForumMarks(trackers[1..], user, forumIds);
      assert trackers == [trackers[0]] + trackers[1..];
      if trackers[0].userId == user.id && trackers[0].forumId in forumIds then [trackers[0]] + rest else rest
  }

  /** `TopicReadTracker.objects.filter(user=user, topic__in=topics)`. */
  function UserTopicMarks(trackers: seq<TopicMark>, user: User, topicIds: seq<int>): (r: seq<TopicMark>)
    ensures forall m :: m in r <==> m in trackers && m.userId == user.id && m.topicId in topicIds
    decreases |trackers|
  {
    if trackers == [] then []
    else
      var rest := UserTopicMarks(trackers[1..], user, topicIds);
      assert trackers == [trackers[0]] + trackers[1..];
      if trackers[0].userId == user.id && trackers[0].topicId in topicIds then [trackers[0]] + rest else rest
  }

  /** `dict([(m.forum_id, m.time_stamp) for m in marks])`: for each forum, the
      time stamp of its last mark. */
  function TimeStampByForum(marks: seq<ForumMark>): (stamps: map<int, int>)
    ensures forall f :: f in stamps <==> exists k :: 0 <= k < |marks| && marks[k].forumId == f
    ensures forall f | f in stamps :: exists k :: LastMarkFor(marks, f, k) && marks[k].timeStamp == stamps[f]
    decreases |marks|
  {
    if marks == [] then map[]
    else
      var init := marks[..|marks| - 1];
      var last := marks[|marks| - 1];
      var stamps := TimeStampByForum(init);
      assert forall k :: 0 <= k < |init| ==> init[k] == marks[k];
      assert LastMarkFor(marks, last.forumId, |marks| - 1);
      assert forall f, k | f != last.forumId && LastMarkFor(init, f, k) :: LastMarkFor(marks, f, k);
      stamps[last.forumId := last.timeStamp]
  }

  /** `marks[k]` is the last mark for forum `f`. */
  predicate LastMarkFor(marks: seq<ForumMark>, f: int, k: int) {
    0 <= k < |marks| && marks[k].forumId == f && forall j :: k < j < |marks| ==> marks[j].forumId != f
  }

  // ---------------------------------------------------------------------------
  // pybb_topic_unread

  /** The annotated topics, and whether the annotator stopped with an error. */
  datatype Annotation = Annotation(topics: seq<Topic>, failed: bool)

  /** Two lists that differ at most in their `unread` flags. */
  predicate SameTopics(a: seq<Topic>, b: seq<Topic>) {
    |a| == |b| && forall i :: 0 <= i < |a| ==> a[i].(unread := b[i].unread) == b[i]
  }

  /** First pass: every topic is unread. */
  function MarkAllUnread(ts: seq<Topic>): seq<Topic> {
    seq(|ts|, i requires 0 <= i < |ts| => ts[i].(unread := Some(true)))
  }

  /** Second pass: a topic whose forum has a mark at or after its last update is read. */
  function ApplyForumMarks(ts: seq<Topic>, stamps: map<int, int>): seq<Topic> {
    seq(|ts|, i requires 0 <= i < |ts| =>
      if ts[i].forumId in stamps && LastUpdate(ts[i]) <= stamps[ts[i].forumId]
      then ts[i].(unread := Some(false)) else ts[i])
  }

  predicate ValidIndex(index: map<int, nat>, n: nat) {
    forall k | k in index :: index[k] < n
  }

  predicate MarksIndexed(index: map<int, nat>, marks: seq<TopicMark>) {
    forall m | m in marks :: m.topicId in index
  }

  /** One topic mark of the third pass. Comparing a missing `updated` with a time
      stamp raises (Python 2 refuses to order `None` against a datetime). */
  function ApplyTopicMark(ts: seq<Topic>, index: map<int, nat>, m: TopicMark): (r: Annotation)
    requires ValidIndex(index, |ts|) && m.topicId in index
    ensures |r.topics| == |ts|
  {
    var j := index[m.topicId];
    if ts[j].updated.None? then Annotation(ts, true)
    else if ts[j].updated.value <= m.timeStamp then Annotation(ts[j := ts[j].(unread := Some(false))], false)
    else Annotation(ts, false)
  }

  /** Third pass: the topic marks in query order, stopping at the first error. */
  function ApplyTopicMarks(ts: seq<Topic>, index: map<int, nat>, marks: seq<TopicMark>): (r: Annotation)
    requires ValidIndex(index, |ts|) && MarksIndexed(index, marks)
    ensures |r.topics| == |ts|
    decreases |marks|
  {
    if marks == [] then Annotation(ts, false)
    else
      var prev := ApplyTopicMarks(ts, index, marks[..|marks| - 1]);
      if prev.failed then prev else ApplyTopicMark(prev.topics, index, marks[|marks| - 1])
  }

  /** Everything `pybb_topic_unread` does to its list. */
  function TopicUnreadSpec(ts: seq<Topic>, user: User, forumTrackers: seq<ForumMark>, topicTrackers: seq<TopicMark>): Annotation
  {
    if !user.authenticated then Annotation(ts, false)
    else
      var stamps := TimeStampByForum(UserForumMarks(forumTrackers, user, ForumIdsOf(ts)));
      var afterForums := ApplyForumMarks(MarkAllUnread(ts), stamps);
      ApplyTopicMarks(afterForums, IndexById(TopicIds(ts)), UserTopicMarks(topicTrackers, user, TopicIds(ts)))
  }

  /** Once the third pass has failed on a prefix of the marks, the rest changes nothing. */
  lemma {:induction false} FailureSticks(ts: seq<Topic>, index: map<int, nat>, marks: seq<TopicMark>, n: nat)
    requires ValidIndex(index, |ts|) && MarksIndexed(index, marks) && n <= |marks|
    requires ApplyTopicMarks(ts, index, marks[..n]).failed
    ensures ApplyTopicMarks(ts, index, marks) == ApplyTopicMarks(ts, index, marks[..n])
    decreases |marks|
  {
    if n < |marks| {
      var init := marks[..|marks| - 1];
      assert init[..n] == marks[..n];
      FailureSticks(ts, index, init, n);
    } else {
      assert marks[..n] == marks;
    }
  }

  /** A topic mark clears position `i`: the dictionary maps the mark's topic to `i`
      and the topic's `updated` is not after the mark. */
  predicate ClearedByMark(p: seq<Topic>, index: map<int, nat>, marks: seq<TopicMark>, i: nat)
    requires MarksIndexed(index, marks) && i < |p|
  {
    exists m | m in marks :: index[m.topicId] == i && p[i].updated.Some? && p[i].updated.value <= m.timeStamp
  }

  /** The third pass fails exactly when some mark's topic has no `updated`;
      otherwise it clears exactly the positions some mark clears. */
  lemma {:induction false} ApplyTopicMarksChar(p: seq<Topic>, index: map<int, nat>, marks: seq<TopicMark>)
    requires ValidIndex(index, |p|) && MarksIndexed(index, marks)
    ensures SameTopics(ApplyTopicMarks(p, index, marks).topics, p)
    ensures ApplyTopicMarks(p, index, marks).failed <==>
      exists m | m in marks :: p[index[m.topicId]].updated.None?
    ensures !ApplyTopicMarks(p, index, marks).failed ==>
      forall i :: 0 <= i < |p| ==> (ApplyTopicMarks(p, index, marks).topics[i] ==
        if ClearedByMark(p, index, marks, i) then p[i].(unread := Some(false)) else p[i])
    decreases |marks|
  {
    if marks != [] {
      var init := marks[..|marks| - 1];
      var last := marks[|marks| - 1];
      assert marks == init + [last];
      assert MarksIndexed(index, init);
      ApplyTopicMarksChar(p, index, init);
      var prev := ApplyTopicMarks(p, index, init);
      if !prev.failed {
        var j := index[last.topicId];
        assert prev.topics[j].updated == p[j].updated;
        forall i | 0 <= i < |p|
          ensures ClearedByMark(p, index, marks, i) <==>
            ClearedByMark(p, index, init, i) || (j == i && p[i].updated.Some? && p[i].updated.value <= last.timeStamp)
        {
          if ClearedByMark(p, index, marks, i) {
            var m :| m in marks && index[m.topicId] == i && p[i].updated.Some? && p[i].updated.value <= m.timeStamp;
            if m != last {
              assert m in init;
            }
          }
        }
      }
    }
  }

  /** Topic `i` is read through its forum: the forum's recorded mark is at or after
      its last update. */
  predicate ForumMarkCovers(ts: seq<Topic>, i: nat, user: User, forumTrackers: seq<ForumMark>)
    requires i < |ts|
  {
    var stamps := TimeStampByForum(UserForumMarks(forumTrackers, user, ForumIdsOf(ts)));
    ts[i].forumId in stamps && LastUpdate(ts[i]) <= stamps[ts[i].forumId]
  }

  /** Topic `i` is read through a topic mark: it is the last list entry with its id,
      it has an `updated` time, and some mark of the user for it is not older. */
  predicate TopicMarkCovers(ts: seq<Topic>, i: nat, user: User, topicTrackers: seq<TopicMark>)
    requires i < |ts|
  {
    && IsLastId(TopicIds(ts), i)
    && ts[i].updated.Some?
    && exists m | m in topicTrackers ::
         m.userId == user.id && m.topicId == ts[i].id && ts[i].updated.value <= m.timeStamp
  }

  /** The annotator raises: a mark of the user names a topic of the list whose
      last entry has no `updated` time. */
  predicate TopicMarkFails(ts: seq<Topic>, user: User, topicTrackers: seq<TopicMark>) {
    exists m, i | m in topicTrackers && 0 <= i < |ts| ::
      m.userId == user.id && m.topicId == ts[i].id && IsLastId(TopicIds(ts), i) && ts[i].updated.None?
  }

  /**
   * What `pybb_topic_unread` promises: the same topics in the same order, only
   * their flags changed; for an anonymous user nothing changes; otherwise it
   * fails exactly when a topic mark meets a topic without `updated`, and when it
   * completes a topic is unread unless its forum mark or one of its topic marks
   * covers it.
   */
  lemma TopicUnreadChar(ts: seq<Topic>, user: User, forumTrackers: seq<ForumMark>, topicTrackers: seq<TopicMark>)
    ensures SameTopics(TopicUnreadSpec(ts, user, forumTrackers, topicTrackers).topics, ts)
    ensures !user.authenticated ==> TopicUnreadSpec(ts, user, forumTrackers, topicTrackers) == Annotation(ts, false)
    ensures user.authenticated ==>
      (TopicUnreadSpec(ts, user, forumTrackers, topicTrackers).failed <==> TopicMarkFails(ts, user, topicTrackers))
    ensures user.authenticated && !TopicUnreadSpec(ts, user, forumTrackers, topicTrackers).failed ==>
      forall i :: 0 <= i < |ts| ==> (TopicUnreadSpec(ts, user, forumTrackers, topicTrackers).topics[i].unread ==
        Some(!(ForumMarkCovers(ts, i, user, forumTrackers) || TopicMarkCovers(ts, i, user, topicTrackers))))
  {
    if user.authenticated {
      var stamps := TimeStampByForum(UserForumMarks(forumTrackers, user, ForumIdsOf(ts)));
      var p := ApplyForumMarks(MarkAllUnread(ts), stamps);
      var index := IndexById(TopicIds(ts));
      var marks := UserTopicMarks(topicTrackers, user, TopicIds(ts));
      ApplyTopicMarksChar(p, index, marks);
      assert SameTopics(p, ts);
      FailsIff(ts, p, user, topicTrackers);
      forall i | 0 <= i < |ts|
        ensures ClearedByMark(p, index, marks, i) <==> TopicMarkCovers(ts, i, user, topicTrackers)
      {
        ClearedIff(ts, p, user, topicTrackers, i);
      }
    }
  }

  /** The third pass's failure condition, stated over the list and the tracker table. */
  lemma FailsIff(ts: seq<Topic>, p: seq<Topic>, user: User, topicTrackers: seq<TopicMark>)
    requires SameTopics(p, ts)
    ensures var marks := UserTopicMarks(topicTrackers, user, TopicIds(ts));
      var index := IndexById(TopicIds(ts));
      (exists m | m in marks :: p[index[m.topicId]].updated.None?) <==> TopicMarkFails(ts, user, topicTrackers)
  {
    var ids := TopicIds(ts);
    var marks := UserTopicMarks(topicTrackers, user, ids);
    var index := IndexById(ids);
    if exists m | m in marks :: p[index[m.topicId]].updated.None? {
      var m :| m in marks && p[index[m.topicId]].updated.None?;
      var i := index[m.topicId];
      assert p[i].(unread := ts[i].unread) == ts[i];
      assert m.userId == user.id && m.topicId == ts[i].id && IsLastId(ids, i) && ts[i].updated.None?;
    }
    if TopicMarkFails(ts, user, topicTrackers) {
      var m, i :| m in topicTrackers && 0 <= i < |ts| && m.userId == user.id && m.topicId == ts[i].id
        && IsLastId(ids, i) && ts[i].updated.None?;
      assert ids[i] == m.topicId;
      IndexByIdAt(ids, i);
      assert p[i].(unread := ts[i].unread) == ts[i];
      assert m in marks;
    }
  }

  /** The third pass's clearing condition, stated over the list and the tracker table. */
  lemma ClearedIff(ts: seq<Topic>, p: seq<Topic>, user: User, topicTrackers: seq<TopicMark>, i: nat)
    requires SameTopics(p, ts) && i < |ts|
    ensures ClearedByMark(p, IndexById(TopicIds(ts)), UserTopicMarks(topicTrackers, user, TopicIds(ts)), i)
        <==> TopicMarkCovers(ts, i, user, topicTrackers)
  {
    var ids := TopicIds(ts);
    var marks := UserTopicMarks(topicTrackers, user, ids);
    var index := IndexById(ids);
    assert p[i].(unread := ts[i].unread) == ts[i];
    IndexByIdAt(ids, i);
    if TopicMarkCovers(ts, i, user, topicTrackers) {
      var m :| m in topicTrackers && m.userId == user.id && m.topicId == ts[i].id
        && ts[i].updated.value <= m.timeStamp;
      assert ids[i] == m.topicId;
      assert m in marks;
    }
  }

  /** The annotator's flags do not depend on flags the topics already carry. */
  lemma TopicUnreadIgnoresOldFlags(ts: seq<Topic>, ts': seq<Topic>, user: User,
                                   forumTrackers: seq<ForumMark>, topicTrackers: seq<TopicMark>)
    requires SameTopics(ts', ts)
    ensures TopicUnreadSpec(ts', user, forumTrackers, topicTrackers).failed
         == TopicUnreadSpec(ts, user, forumTrackers, topicTrackers).failed
    ensures user.authenticated ==>
      TopicUnreadSpec(ts', user, forumTrackers, topicTrackers) == TopicUnreadSpec(ts, user, forumTrackers, topicTrackers)
  {
    assert TopicIds(ts') == TopicIds(ts);
    assert ForumIdsOf(ts') == ForumIdsOf(ts);
    assert MarkAllUnread(ts') == MarkAllUnread(ts);
  }

  /** Annotating an already annotated list again gives the same outcome, also
      when the first annotation raised: the second raises at the same mark. */
  lemma TopicUnreadIdempotent(ts: seq<Topic>, user: User, forumTrackers: seq<ForumMark>, topicTrackers: seq<TopicMark>)
    ensures var r := TopicUnreadSpec(ts, user, forumTrackers, topicTrackers);
      TopicUnreadSpec(r.topics, user, forumTrackers, topicTrackers) == r
  {
    var r := TopicUnreadSpec(ts, user, forumTrackers, topicTrackers);
    TopicUnreadChar(ts, user, forumTrackers, topicTrackers);
    TopicUnreadIgnoresOldFlags(r.topics, ts, user, forumTrackers, topicTrackers);
  }

  /** At most one tracker per (user, forum) and per (user, topic), as the tracker
      tables keep it. */
  predicate UniqueForumMarks(trackers: seq<ForumMark>) {
    forall j, k :: 0 <= j < k < |trackers| ==>
      trackers[j].userId != trackers[k].userId || trackers[j].forumId != trackers[k].forumId
  }

  /** When it completes on a list of distinct topics, and each (user, forum) has
      one tracker, the annotator agrees with `pybb_is_topic_unread`. */
  lemma TopicUnreadAgreesWithFilter(ts: seq<Topic>, user: User, forumTrackers: seq<ForumMark>,
                                    topicTrackers: seq<TopicMark>, i: nat)
    requires user.authenticated && i < |ts|
    requires forall j, k :: 0 <= j < k < |ts| ==> ts[j].id != ts[k].id
    requires !TopicUnreadSpec(ts, user, forumTrackers, topicTrackers).failed
    requires UniqueForumMarks(forumTrackers)
    ensures TopicUnreadSpec(ts, user, forumTrackers, topicTrackers).topics[i].unread
         == Some(IsTopicUnread(ts[i], user, forumTrackers, topicTrackers))
  {
    TopicUnreadChar(ts, user, forumTrackers, topicTrackers);
    ForumMarkCoversIff(ts, i, user, forumTrackers);
    assert IsLastId(TopicIds(ts), i);
  }

  /** The annotator completes on a list whose topics all have an `updated` time. */
  lemma TopicUnreadCompletes(ts: seq<Topic>, user: User, forumTrackers: seq<ForumMark>, topicTrackers: seq<TopicMark>)
    requires forall j :: 0 <= j < |ts| ==> ts[j].updated.Some?
    ensures !TopicUnreadSpec(ts, user, forumTrackers, topicTrackers).failed
  {
    TopicUnreadChar(ts, user, forumTrackers, topicTrackers);
  }

  /** With one tracker per (user, forum), the forum pass reads a topic exactly when
      the user's tracker for its forum is not older than the topic's last update. */
  lemma ForumMarkCoversIff(ts: seq<Topic>, i: nat, user: User, forumTrackers: seq<ForumMark>)
    requires i < |ts| && UniqueForumMarks(forumTrackers)
    ensures ForumMarkCovers(ts, i, user, forumTrackers) <==>
      exists m | m in forumTrackers :: m.forumId == ts[i].forumId && m.userId == user.id && m.timeStamp >= LastUpdate(ts[i])
  {
    var marks := UserForumMarks(forumTrackers, user, ForumIdsOf(ts));
    var stamps := TimeStampByForum(marks);
    var f := ts[i].forumId;
    assert ForumIdsOf(ts)[i] == f;
    // Any two marks of this user for the same forum are one record.
    forall a, b | a in marks && b in marks && a.forumId == b.forumId
      ensures a == b
    {
      var ja :| 0 <= ja < |forumTrackers| && forumTrackers[ja] == a;
      var jb :| 0 <= jb < |forumTrackers| && forumTrackers[jb] == b;
      if ja < jb {
        assert false;
      } else if jb < ja {
        assert false;
      }
    }
    if ForumMarkCovers(ts, i, user, forumTrackers) {
      var k :| LastMarkFor(marks, f, k) && marks[k].timeStamp == stamps[f];
      assert marks[k] in forumTrackers;
    } else {
      forall m | m in forumTrackers && m.forumId == f && m.userId == user.id
        ensures m.timeStamp < LastUpdate(ts[i])
      {
        assert m in marks;
        assert f in stamps;
        var k' :| LastMarkFor(marks, f, k') && marks[k'].timeStamp == stamps[f];
      }
    }
  }

  /** First pass of `pybb_topic_unread`: `topic.unread = True` for every topic. */
  method SetAllUnread(topics: array<Topic>)
    modifies topics
    ensures topics[..] == MarkAllUnread(old(topics[..]))
  {
    var i := 0;
    while i < topics.Length
      invariant 0 <= i <= topics.Length
      invariant forall k :: 0 <= k < i ==> topics[k] == old(topics[k]).(unread := Some(true))
      invariant forall k :: i <= k < topics.Length ==> topics[k] == old(topics[k])
    {
      topics[i] := topics[i].(unread := Some(true));
      i := i + 1;
    }
  }

  /** Second pass: clear the flag of every topic whose forum's mark covers it. */
  method ClearByForumMarks(topics: array<Topic>, forumMarks: map<int, int>)
    modifies topics
    ensures topics[..] == ApplyForumMarks(old(topics[..]), forumMarks)
  {
    var i := 0;
    while i < topics.Length
      invariant 0 <= i <= topics.Length
      invariant forall k :: 0 <= k < i ==> topics[k] == ApplyForumMarks(old(topics[..]), forumMarks)[k]
      invariant forall k :: i <= k < topics.Length ==> topics[k] == old(topics[k])
    {
      var topic := topics[i];
      if topic.forumId in forumMarks && LastUpdate(topic) <= forumMarks[topic.forumId] {
        topics[i] := topic.(unread := Some(false));
      }
      i := i + 1;
    }
  }

  /** Third pass: for each topic mark, clear the flag of the topic the dictionary
      keeps for it when the topic's `updated` is not after the mark; stop with an
      error at a topic without `updated`. */
  method ClearByTopicMarks(topics: array<Topic>, topicDict: map<int, nat>, topicMarks: seq<TopicMark>)
    returns (failed: bool)
    requires ValidIndex(topicDict, topics.Length) && MarksIndexed(topicDict, topicMarks)
    modifies topics
    ensures Annotation(topics[..], failed) == ApplyTopicMarks(old(topics[..]), topicDict, topicMarks)
  {
    ghost var start := topics[..];
    var k := 0;
    while k < |topicMarks|
      invariant 0 <= k <= |topicMarks|
      invariant ApplyTopicMarks(start, topicDict, topicMarks[..k]) == Annotation(topics[..], false)
    {
      var mark := topicMarks[k];
      var j := topicDict[mark.topicId];
      var topic := topics[j];
      assert topicMarks[..k + 1][..k] == topicMarks[..k];
      if topic.updated.None? {
        // `None <= time_stamp` raises in Python 2.
        FailureSticks(start, topicDict, topicMarks, k + 1);
        return true;
      }
      if topic.updated.value <= mark.timeStamp {
        topics[j] := topic.(unread := Some(false));
      }
      k := k + 1;
    }
    assert topicMarks[..k] == topicMarks;
    return false;
  }

  /**
   * `pybb_topic_unread` on a mutable list: mark every topic unread, clear the
   * ones their forum's mark covers, then clear the ones a topic mark covers.
   * Returns whether the last pass raised.
   */
  method TopicUnread(topics: array<Topic>, user: User, forumTrackers: seq<ForumMark>, topicTrackers: seq<TopicMark>)
    returns (failed: bool)
    modifies topics
    ensures Annotation(topics[..], failed) == TopicUnreadSpec(old(topics[..]), user, forumTrackers, topicTrackers)
  {
    if !user.authenticated {
      return false;
    }
    ghost var ts := topics[..];
    SetAllUnread(topics);
    assert ForumIdsOf(topics[..]) == ForumIdsOf(ts);
    var forumIds := ForumIdsOf(topics[..]);
    var forumMarks := TimeStampByForum(UserForumMarks(forumTrackers, user, forumIds));
    if |forumMarks| > 0 {
      ClearByForumMarks(topics, forumMarks);
    } else {
      assert topics[..] == ApplyForumMarks(topics[..], forumMarks);
    }
    assert TopicIds(topics[..]) == TopicIds(ts);
    var topicIds := TopicIds(topics[..]);
    var topicMarks := UserTopicMarks(topicTrackers, user, topicIds);
    var topicDict := IndexById(topicIds);
    failed := ClearByTopicMarks(topics, topicDict, topicMarks);
  }

  // ---------------------------------------------------------------------------
  // pybb_forum_unread

  function TreeSize(f: Forum): nat
    decreases f
  {
    1 + ForestSize(f.children)
  }

  function ForestSize(fs: seq<Forum>): nat
    decreases fs
  {
    if fs == [] then 0 else TreeSize(fs[0]) + ForestSize(fs[1..])
  }

  /** The child forums of a listed forum form a smaller forest than the list. */
  lemma {:induction false} ChildrenSmaller(fs: seq<Forum>, i: nat)
    requires i < |fs|
    ensures ForestSize(fs[i].children) < ForestSize(fs)
    decreases i
  {
    if i > 0 {
      ChildrenSmaller(fs[1..], i - 1);
      assert fs[1..][i - 1] == fs[i];
    }
  }

  /** `(updated is None) or (updated <= time_stamp)`. */
  predicate Covers(updated: Option<int>, timeStamp: int) {
    updated.None? || updated.value <= timeStamp
  }

  /** `any(f.unread for f in forums)`. */
  predicate AnyUnread(forums: seq<Forum>) {
    exists i :: 0 <= i < |forums| && forums[i].unread == Some(true)
  }

  /** Forum `i` is cleared by one of `marks`: it is the dictionary's object for its
      id, a mark for it is not older than its update time, and none of its child
      forums is unread. */
  predicate ReadByMarks(fs: seq<Forum>, i: nat, user: User, trackers: seq<ForumMark>, marks: seq<ForumMark>)
    requires i < |fs|
    decreases ForestSize(fs), 0
  {
    && IsLastId(ForumIds(fs), i)
    && (exists m | m in marks :: m.forumId == fs[i].id && Covers(fs[i].updated, m.timeStamp))
    && (ChildrenSmaller(fs, i); !AnyUnread(ForumUnreadSpec(fs[i].children, user, trackers)))
  }

  /** `pybb_forum_unread` on a list of forums: flags only, recursively over the
      child forums of every forum a mark clears. */
  function ForumUnreadSpec(fs: seq<Forum>, user: User, trackers: seq<ForumMark>): (r: seq<Forum>)
    ensures |r| == |fs|
    ensures forall i :: 0 <= i < |fs| ==> r[i].(unread := fs[i].unread) == fs[i]
    ensures !user.authenticated ==> r == fs
    ensures user.authenticated ==> forall i :: 0 <= i < |fs| && fs[i].topicCount <= 0 ==> r[i].unread == Some(false)
    decreases ForestSize(fs), 1
  {
    if !user.authenticated then fs
    else
      var marks := UserForumMarks(trackers, user, ForumIds(fs));
      seq(|fs|, i requires 0 <= i < |fs| =>
        fs[i].(unread := Some(fs[i].topicCount > 0 && !ReadByMarks(fs, i, user, trackers, marks))))
  }

  /** First pass of `pybb_forum_unread`: `forum.unread = forum.topic_count > 0`. */
  method SetForumFlags(forums: array<Forum>)
    modifies forums
    ensures forall x :: 0 <= x < forums.Length ==> forums[x] == old(forums[x]).(unread := Some(old(forums[x]).topicCount > 0))
  {
    var i := 0;
    while i < forums.Length
      invariant 0 <= i <= forums.Length
      invariant forall x :: 0 <= x < i ==> forums[x] == old(forums[x]).(unread := Some(old(forums[x]).topicCount > 0))
      invariant forall x :: i <= x < forums.Length ==> forums[x] == old(forums[x])
    {
      forums[i] := forums[i].(unread := Some(forums[i].topicCount > 0));
      i := i + 1;
    }
  }

  /** The flags after the first pass and the marks `marks`. */
  function FlagsAfter(fs: seq<Forum>, user: User, trackers: seq<ForumMark>, marks: seq<ForumMark>): (r: seq<Forum>)
    ensures |r| == |fs|
  {
    seq(|fs|, x requires 0 <= x < |fs| =>
      fs[x].(unread := Some(fs[x].topicCount > 0 && !ReadByMarks(fs, x, user, trackers, marks))))
  }

  /** One more mark clears at most the dictionary's object for its forum id, and
      only when the mark covers it and none of its child forums is unread. */
  lemma ForumMarkStep(fs: seq<Forum>, user: User, trackers: seq<ForumMark>, pre: seq<ForumMark>, mark: ForumMark, j: nat)
    requires j < |fs| && IsLastId(ForumIds(fs), j) && fs[j].id == mark.forumId
    ensures var before := FlagsAfter(fs, user, trackers, pre);
      var after := FlagsAfter(fs, user, trackers, pre + [mark]);
      if Covers(fs[j].updated, mark.timeStamp) && !AnyUnread(ForumUnreadSpec(fs[j].children, user, trackers))
      then after == before[j := before[j].(unread := Some(false))]
      else after == before
  {
    forall x | 0 <= x < |fs| && x != j
      ensures ReadByMarks(fs, x, user, trackers, pre + [mark]) == ReadByMarks(fs, x, user, trackers, pre)
    {
      LastIdUnique(ForumIds(fs), x, j);
    }
  }

  /** Two positions that both hold the last occurrence of one id are the same. */
  lemma LastIdUnique(ids: seq<int>, x: nat, y: nat)
    requires x < |ids| && y < |ids|
    ensures IsLastId(ids, x) && IsLastId(ids, y) && ids[x] == ids[y] ==> x == y
  {
  }

  /** The first pass alone, and the full run over the user's marks. */
  lemma FlagsAfterEnds(fs: seq<Forum>, user: User, trackers: seq<ForumMark>)
    requires user.authenticated
    ensures FlagsAfter(fs, user, trackers, UserForumMarks(trackers, user, ForumIds(fs))) == ForumUnreadSpec(fs, user, trackers)
    ensures forall x :: 0 <= x < |fs| ==>
      FlagsAfter(fs, user, trackers, [])[x] == fs[x].(unread := Some(fs[x].topicCount > 0))
  {
  }

  /** `not any(f.unread for f in pybb_forum_unread(children, user))`: the child
      forums are fetched afresh, so annotating them leaves the parent list alone. */
  method ChildrenRead(cs: seq<Forum>, user: User, trackers: seq<ForumMark>) returns (read: bool)
    ensures read == !AnyUnread(ForumUnreadSpec(cs, user, trackers))
    decreases ForestSize(cs), 2
  {
    var children := new Forum[|cs|](c requires 0 <= c < |cs| => cs[c]);
    assert children[..] == cs;
    ForumUnread(children, user, trackers);
    read := !AnyUnread(children[..]);
  }

  /** `pybb_forum_unread`: annotates the list in place, recursing into the child
      forums of every forum a mark covers. */
  method ForumUnread(forums: array<Forum>, user: User, trackers: seq<ForumMark>)
    modifies forums
    ensures forums[..] == ForumUnreadSpec(old(forums[..]), user, trackers)
    decreases ForestSize(forums[..]), 1
  {
    if !user.authenticated {
      return;
    }
    ghost var fs := forums[..];
    FlagsAfterEnds(fs, user, trackers);
    SetForumFlags(forums);
    assert forums[..] == FlagsAfter(fs, user, trackers, []);
    assert ForumIds(forums[..]) == ForumIds(fs);
    var marks := UserForumMarks(trackers, user, ForumIds(forums[..]));
    var forumDict := IndexById(ForumIds(forums[..]));
    var k := 0;
    while k < |marks|
      invariant 0 <= k <= |marks|
      invariant forums[..] == FlagsAfter(fs, user, trackers, marks[..k])
    {
      var mark := marks[k];
      assert marks[..k + 1] == marks[..k] + [mark];
      assert mark in marks;
      var j := forumDict[mark.forumId];
      ForumMarkStep(fs, user, trackers, marks[..k], mark, j);
      var current := forums[j];
      assert current.updated == fs[j].updated && current.children == fs[j].children;
      if Covers(current.updated, mark.timeStamp) {
        ChildrenSmaller(fs, j);
        var read := ChildrenRead(current.children, user, trackers);
        if read {
          forums[j] := forums[j].(unread := Some(false));
        }
      }
      k := k + 1;
    }
    assert marks[..k] == marks;
  }

  // ---------------------------------------------------------------------------
  // Properties of pybb_forum_unread

  /** A user's tracker for forum `i` that covers its update time. */
  predicate CoveringTracker(fs: seq<Forum>, i: nat, user: User, trackers: seq<ForumMark>)
    requires i < |fs|
  {
    exists m | m in trackers :: m.userId == user.id && m.forumId == fs[i].id && Covers(fs[i].updated, m.timeStamp)
  }

  /** For an authenticated user, forum `i` ends unread exactly when it has topics
      and it is not the case that it is the dictionary's object for its id, a
      tracker of the user covers it, and none of its child forums ends unread. */
  lemma ForumUnreadChar(fs: seq<Forum>, user: User, trackers: seq<ForumMark>, i: nat)
    requires user.authenticated && i < |fs|
    ensures ForumUnreadSpec(fs, user, trackers)[i].unread == Some(
      fs[i].topicCount > 0 &&
      !(IsLastId(ForumIds(fs), i) && CoveringTracker(fs, i, user, trackers)
        && !AnyUnread(ForumUnreadSpec(fs[i].children, user, trackers))))
  {
    var marks := UserForumMarks(trackers, user, ForumIds(fs));
    assert ForumIds(fs)[i] == fs[i].id;
    if CoveringTracker(fs, i, user, trackers) {
      var m :| m in trackers && m.userId == user.id && m.forumId == fs[i].id && Covers(fs[i].updated, m.timeStamp);
      assert m in marks;
    }
  }

  /** An unread child forum keeps a forum with topics unread, whatever its marks. */
  lemma UnreadChildKeepsParentUnread(fs: seq<Forum>, user: User, trackers: seq<ForumMark>, i: nat)
    requires user.authenticated && i < |fs| && fs[i].topicCount > 0
    requires AnyUnread(ForumUnreadSpec(fs[i].children, user, trackers))
    ensures ForumUnreadSpec(fs, user, trackers)[i].unread == Some(true)
  {
    ForumUnreadChar(fs, user, trackers, i);
  }

  /** Without a covering tracker a forum is unread exactly when it has topics. */
  lemma UntrackedForumUnread(fs: seq<Forum>, user: User, trackers: seq<ForumMark>, i: nat)
    requires user.authenticated && i < |fs| && !CoveringTracker(fs, i, user, trackers)
    ensures ForumUnreadSpec(fs, user, trackers)[i].unread == Some(fs[i].topicCount > 0)
  {
    ForumUnreadChar(fs, user, trackers, i);
  }

  /** Annotating an annotated list changes nothing: the flags depend only on the
      other fields, which annotation keeps. */
  lemma ForumUnreadIdempotent(fs: seq<Forum>, user: User, trackers: seq<ForumMark>)
    ensures ForumUnreadSpec(ForumUnreadSpec(fs, user, trackers), user, trackers) == ForumUnreadSpec(fs, user, trackers)
  {
    var r := ForumUnreadSpec(fs, user, trackers);
    if user.authenticated {
      assert ForumIds(r) == ForumIds(fs);
      forall i | 0 <= i < |fs|
        ensures ForumUnreadSpec(r, user, trackers)[i] == r[i]
      {
        ForumUnreadChar(fs, user, trackers, i);
        ForumUnreadChar(r, user, trackers, i);
        assert r[i].children == fs[i].children;
      }
    }
  }

  /** A forum marked read at its own update time (a covering mark) stays unread
      because its child forum has a newer topic the user has not read. */
  lemma UnreadChildExample()
    ensures var child := Forum(2, 1, Some(10), [], None);
      var parent := Forum(1, 1, Some(5), [child], None);
      ForumUnreadSpec([parent], User(7, true), [ForumMark(7, 1, 5)])
      == [parent.(unread := Some(true))]
  {
    var child := Forum(2, 1, Some(10), [], None);
    var parent := Forum(1, 1, Some(5), [child], None);
    var user := User(7, true);
    var trackers := [ForumMark(7, 1, 5)];
    UntrackedForumUnread([child], user, trackers, 0);
    assert AnyUnread(ForumUnreadSpec([child], user, trackers));
    UnreadChildKeepsParentUnread([parent], user, trackers, 0);
  }
}
