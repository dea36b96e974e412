/**
 * The YouTube push-notification handler of youtube.go: answer the hub's
 * verification challenge, or decide whether the first feed entry is a video
 * not yet announced for a monitored channel and, if so, announce every feed
 * entry to every destination of that channel and remember the video as seen.
 */
module YouTube {
  import opened Streams

  /** Videos published longer ago than this (in seconds: 24 hours) are not announced. */
  const FreshnessWindow: int := 24 * 60 * 60

  /** The feed topic a channel's subscription asks the hub about. */
  const TopicPrefix: string := "https://www.youtube.com/xml/feeds/videos.xml?channel_id="

  /** The text between the author's name and the link in an announcement. */
  const NewVideoText: string := " has posted a new video: "

  /** The subscription topic of the channel with the given YouTube ID. */
  function TopicUrl(userId: string): (t: string)
    ensures |t| == |TopicPrefix| + |userId|
    ensures t[..|TopicPrefix|] == TopicPrefix && t[|TopicPrefix|..] == userId
  {
    TopicPrefix + userId
  }

  /** Distinct channels subscribe to distinct topics. */
  lemma TopicUrlInjective(a: string, b: string)
    requires TopicUrl(a) == TopicUrl(b)
    ensures a == b
  {
    assert a == TopicUrl(a)[|TopicPrefix|..];
  }

  /** One parsed Atom entry: the `yt:channelId` and `yt:videoId` extensions, the
      publication instant (seconds), the first author's name and the first link. */
  datatype FeedEntry = FeedEntry(channelId: string, videoId: string, published: int, author: string, link: string)

  /** The HTTP answer: the challenge echoed as the body, or 204 No Content. */
  datatype Reply = Challenge(body: string) | NoContent

  /** One Discord message to send: destination channel and text. */
  datatype Post = Post(channelId: string, content: string)

  /** Everything a notification produces: the reply, the messages sent in order,
      and the channel's list of seen video IDs afterwards. */
  datatype Outcome = Outcome(reply: Reply, posts: seq<Post>, videoIds: seq<string>)

  /** The announcement of one feed entry. */
  function Announcement(e: FeedEntry): (text: string)
    ensures |text| == |e.author| + |NewVideoText| + |e.link|
    ensures text[..|e.author|] == e.author && text[|text| - |e.link|..] == e.link
    ensures text[|e.author|..|e.author| + |NewVideoText|] == NewVideoText
  {
    e.author + NewVideoText + e.link
  }

  /** A video published strictly before `now` minus the window is too old. */
  predicate TooOld(published: int, now: int): (stale: bool)
    ensures stale <==> now - published > FreshnessWindow
  {
    published < now - FreshnessWindow
  }

  /** The messages announcing `e` to each destination, in destination order. */
  function PostsFor(e: FeedEntry, dests: seq<DiscordChannel>): (r: seq<Post>)
    ensures |r| == |dests|
    ensures forall j :: 0 <= j < |dests| ==> r[j] == Post(dests[j].channelId, Announcement(e))
    decreases |dests|
  {
    if dests == [] then []
    else PostsFor(e, dests[..|dests| - 1]) + [Post(dests[|dests| - 1].channelId, Announcement(e))]
  }

  /** The messages announcing every entry to every destination: entry-major,
      then destination order. */
  function FanOut(entries: seq<FeedEntry>, dests: seq<DiscordChannel>): (r: seq<Post>)
    ensures |r| == |entries| * |dests|
    decreases |entries|
  {
    if entries == [] then []
    else
      MulSucc(|entries| - 1, |dests|);
      FanOut(entries[..|entries| - 1], dests) + PostsFor(entries[|entries| - 1], dests)
  }

  /** `n` copies of `id`. */
  function Repeat(id: string, n: nat): (r: seq<string>)
    ensures |r| == n
    ensures forall k :: 0 <= k < n ==> r[k] == id
  {
    if n == 0 then [] else Repeat(id, n - 1) + [id]
  }

  /** The handler announces: no challenge, the channel is monitored, the first
      entry is recent enough and its video has not been seen. */
  predicate Accepts(challenge: string, entries: seq<FeedEntry>, found: bool, seen: seq<string>, now: int)
    requires challenge == "" ==> |entries| > 0
  {
    challenge == "" && found && !TooOld(entries[0].published, now) && entries[0].videoId !in seen
  }

  /**
   * What one notification does, given the challenge query parameter, the parsed
   * feed entries, whether the first entry's channel is monitored, that
   * channel's destinations and seen list, and the current instant.
   */
  function Handle(challenge: string, entries: seq<FeedEntry>, found: bool,
                  dests: seq<DiscordChannel>, seen: seq<string>, now: int): (o: Outcome)
    requires challenge == "" ==> |entries| > 0
    ensures challenge != "" ==> o.reply == Challenge(challenge)
    ensures challenge == "" ==> o.reply == NoContent
    ensures !Accepts(challenge, entries, found, seen, now) ==> o.posts == [] && o.videoIds == seen
    ensures Accepts(challenge, entries, found, seen, now) ==>
      o.posts == FanOut(entries, dests) && o.videoIds == seen + Repeat(entries[0].videoId, |entries|)
  {
    if challenge != "" then Outcome(Challenge(challenge), [], seen)
    else if !found then Outcome(NoContent, [], seen)
    else if TooOld(entries[0].published, now) then Outcome(NoContent, [], seen)
    else if entries[0].videoId in seen then Outcome(NoContent, [], seen)
    else Outcome(NoContent, FanOut(entries, dests), seen + Repeat(entries[0].videoId, |entries|))
  }

  /** The message at position `i * |dests| + j` announces entry `i` to
      destination `j`: entries in feed order, each to every destination in turn. */
  lemma {:induction false} FanOutAt(entries: seq<FeedEntry>, dests: seq<DiscordChannel>, i: nat, j: nat)
    requires i < |entries| && j < |dests|
    ensures FanOut(entries, dests)[i * |dests| + j] == Post(dests[j].channelId, Announcement(entries[i]))
    decreases |entries|
  {
    var n := |entries| - 1;
    var init := entries[..n];
    var d := |dests|;
    var front := FanOut(init, dests);
    var p := i * d + j;
    assert FanOut(entries, dests) == front + PostsFor(entries[n], dests);
    assert |front| == n * d;
    if i < n {
      assert p < n * d by {
        MulMono(i, n - 1, d);
        MulSucc(n - 1, d);
      }
      FanOutAt(init, dests, i, j);
      assert init[i] == entries[i];
      assert FanOut(entries, dests)[p] == front[p];
    } else {
      assert p - n * d == j;
    }
  }

  lemma MulMono(a: nat, b: nat, d: nat)
    requires a <= b
    ensures a * d <= b * d
  {
  }

  lemma MulSucc(n: nat, d: nat)
    ensures n * d + d == (n + 1) * d
  {
  }

  /** On the accepting path the old seen list is kept as a prefix and grows by
      exactly one copy of the first entry's video ID per feed entry; otherwise
      nothing is sent and the list is unchanged. */
  lemma SeenListGrowth(challenge: string, entries: seq<FeedEntry>, found: bool,
                       dests: seq<DiscordChannel>, seen: seq<string>, now: int)
    requires challenge == "" ==> |entries| > 0
    ensures var o := Handle(challenge, entries, found, dests, seen, now);
      |o.videoIds| >= |seen| && o.videoIds[..|seen|] == seen &&
      (Accepts(challenge, entries, found, seen, now) ==>
        |o.videoIds| == |seen| + |entries| && |o.posts| == |entries| * |dests| &&
        forall k :: |seen| <= k < |o.videoIds| ==> o.videoIds[k] == entries[0].videoId)
  {
    var o := Handle(challenge, entries, found, dests, seen, now);
    if Accepts(challenge, entries, found, seen, now) {
      var extra := Repeat(entries[0].videoId, |entries|);
      assert o.videoIds == seen + extra;
      forall k | |seen| <= k < |o.videoIds| ensures o.videoIds[k] == entries[0].videoId {
        assert o.videoIds[k] == extra[k - |seen|];
      }
    }
  }

  /** Replaying a notification that was announced changes nothing: the video is
      now in the seen list, so nothing is sent, whatever the time of the replay
      and whatever challenge it carries. */
  lemma ReplayIsNoOp(entries: seq<FeedEntry>, dests: seq<DiscordChannel>, seen: seq<string>,
                     now: int, challenge2: string, now2: int)
    requires |entries| > 0
    requires Accepts("", entries, true, seen, now)
    ensures var first := Handle("", entries, true, dests, seen, now);
      var second := Handle(challenge2, entries, true, dests, first.videoIds, now2);
      first.posts == FanOut(entries, dests) &&
      second.posts == [] && second.videoIds == first.videoIds
  {
    var first := Handle("", entries, true, dests, seen, now);
    var extra := Repeat(entries[0].videoId, |entries|);
    assert first.videoIds == seen + extra;
    assert first.videoIds[|seen|] == extra[0] == entries[0].videoId;
    assert !Accepts(challenge2, entries, true, first.videoIds, now2);
  }

  /** The freshness test is strict: a video exactly 24 hours old is still announced. */
  lemma DayOldVideoIsAnnounced(entries: seq<FeedEntry>, dests: seq<DiscordChannel>, seen: seq<string>, now: int)
    requires |entries| > 0 && entries[0].published == now - FreshnessWindow
    requires entries[0].videoId !in seen
    ensures Handle("", entries, true, dests, seen, now).posts == FanOut(entries, dests)
    ensures !TooOld(entries[0].published, now) && TooOld(entries[0].published, now + 1)
  {
  }

  /**
   * `handleYoutubeNotification`. `channel` is what `findChannel` returned for
   * the first entry's channel ID and the YouTube type (null when none is
   * configured); `now` is the current instant. The method returns the reply
   * and the messages sent, and appends to the channel's seen list in place.
   */
  method HandleYoutubeNotification(challenge: string, entries: seq<FeedEntry>, channel: StreamInfo?, now: int)
      returns (reply: Reply, posts: seq<Post>)
    requires challenge == "" ==> |entries| > 0
    modifies channel
    ensures channel != null ==>
      channel.channels == old(channel.channels) && channel.streamName == old(channel.streamName) &&
      channel.userId == old(channel.userId) && channel.streamType == old(channel.streamType)
    ensures channel == null ==> reply == Handle(challenge, entries, false, [], [], now).reply && posts == []
    ensures channel != null ==>
      var o := Handle(challenge, entries, true, old(channel.channels), old(channel.videoIds), now);
      reply == o.reply && posts == o.posts && channel.videoIds == o.videoIds
  {
    posts := [];
    if challenge != "" {
      reply := Challenge(challenge);
      return;
    }
    reply := NoContent;
    if channel == null {
      return;
    }
    if entries[0].published < now - FreshnessWindow {
      assert TooOld(entries[0].published, now);
      return;
    }
    var firstId := entries[0].videoId;
    var seen := channel.videoIds;
    var k := 0;
    while k < |seen|
      invariant 0 <= k <= |seen|
      invariant firstId !in seen[..k]
    {
      if seen[k] == firstId {
        assert firstId in seen;
        return;
      }
      k := k + 1;
    }
    assert seen[..k] == seen;
    assert Accepts(challenge, entries, true, seen, now);

    posts := AnnounceAll(entries, channel, firstId);
  }

  /** The announcing tail of the handler: every entry goes to every destination
      of `channel`, and `firstId` is appended to its seen list once per entry. */
  method AnnounceAll(entries: seq<FeedEntry>, channel: StreamInfo, firstId: string) returns (posts: seq<Post>)
    modifies channel
    ensures channel.channels == old(channel.channels) && channel.streamName == old(channel.streamName)
    ensures channel.userId == old(channel.userId) && channel.streamType == old(channel.streamType)
    ensures posts == FanOut(entries, channel.channels)
    ensures channel.videoIds == old(channel.videoIds) + Repeat(firstId, |entries|)
  {
    posts := [];
    var i := 0;
    while i < |entries|
      invariant 0 <= i <= |entries|
      invariant channel.channels == old(channel.channels)
      invariant channel.streamName == old(channel.streamName) && channel.userId == old(channel.userId)
      invariant channel.streamType == old(channel.streamType)
      invariant posts == FanOut(entries[..i], channel.channels)
      invariant channel.videoIds == old(channel.videoIds) + Repeat(firstId, i)
    {
      var dests := channel.channels;
      var e := entries[i];
      var batch := PostEntry(e, dests);
      posts := posts + batch;
      assert entries[..i + 1][..i] == entries[..i];
      assert FanOut(entries[..i + 1], dests) == FanOut(entries[..i], dests) + PostsFor(e, dests);
      channel.videoIds := channel.videoIds + [firstId];
      i := i + 1;
    }
    assert entries[..i] == entries;
  }

  /** The inner loop of the handler: announce one entry to each destination in turn. */
  method PostEntry(e: FeedEntry, dests: seq<DiscordChannel>) returns (posts: seq<Post>)
    ensures posts == PostsFor(e, dests)
  {
    posts := [];
    var j := 0;
    while j < |dests|
      invariant 0 <= j <= |dests|
      invariant posts == PostsFor(e, dests[..j])
    {
      assert dests[..j + 1][..j] == dests[..j];
      posts := posts + [Post(dests[j].channelId, Announcement(e))];
      j := j + 1;
    }
    assert dests[..j] == dests;
  }
}
