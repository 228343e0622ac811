/** The poll-and-publish engine of feedprefixer.py: class `FeedPrefixer` with
    `run_once`, `run_since`, `process`, `tweet`, `is_retweet`, `is_at_mention`
    and the state file's `load_since_id` / `save_since_id`. The timeline fetch
    is a parameter, the account the bot posts to is the `published` field,
    and the state file is the `state` field. */
module Engine {
  import opened Strings
  import opened Transform

  /** A status from the source account's timeline. */
  datatype Post = Post(id: int, text: string, isRetweet: bool, mentions: seq<string>)

  /** The state file: absent, emptied (opened for writing, nothing written),
      or holding a JSON record with the cursor and the time of the save. */
  datatype StateFile = NoFile | Truncated | Saved(sinceId: int, timestamp: real)

  /** `is_retweet`: the status carries a retweeted status. */
  predicate IsRetweet(p: Post)
  {
    p.isRetweet
  }

  /** `is_at_mention`: the status's user_mentions list is non-empty. */
  predicate IsAtMention(p: Post)
  {
    p.mentions != []
  }

  /** What `process` hands to `tweet` for one status, if anything. */
  function Publication(tagger: string -> seq<TaggedWord>, p: Post): Option<string>
  {
    if IsRetweet(p) || IsAtMention(p) then None
    else match Cyberify(p.text, tagger(p.text))
      case Ok(text) => Some(text)
      case NotProcessed(_) => None
  }

  function AsSeq(o: Option<string>): seq<string>
  {
    if o.Some? then [o.value] else []
  }

  /** The texts tweeted for `posts`, processed in the order given. */
  function Outputs(tagger: string -> seq<TaggedWord>, posts: seq<Post>): seq<string>
  {
    if posts == [] then []
    else Outputs(tagger, posts[..|posts| - 1]) + AsSeq(Publication(tagger, posts[|posts| - 1]))
  }

  /** `reversed(new_tweets)`. */
  function OldestFirst(posts: seq<Post>): seq<Post>
  {
    if posts == [] then [] else OldestFirst(posts[1..]) + [posts[0]]
  }

  /** What `run_since` returns: the since id when nothing was fetched, else the
      id of the first status fetched. */
  function NextCursor(sinceId: int, fetched: seq<Post>): int
  {
    if fetched == [] then sinceId else fetched[0].id
  }

  /** The timeline delivers statuses newest first. */
  ghost predicate NewestFirst(posts: seq<Post>)
  {
    forall i, j :: 0 <= i < j < |posts| ==> posts[i].id > posts[j].id
  }

  /** What `load_since_id` reads back from the state file. */
  function Loaded(f: StateFile): Option<int>
  {
    if f.Saved? then Some(f.sinceId) else None
  }

  /** The state file after `save_since_id`: it is opened for writing (and so
      emptied) before the dry-run test, and only then written. */
  function Written(sinceId: int, now: real, dryRun: bool): StateFile
  {
    if dryRun then Truncated else Saved(sinceId, now)
  }

  class FeedPrefixer {
    const sourceUsername: string
    const username: string
    const stateFilename: string
    const dryRun: bool
    /** The part-of-speech tagger, a foreign library. */
    const tagger: string -> seq<TaggedWord>

    /** Texts posted to the bot's own account, in posting order. */
    var published: seq<string>
    /** The contents of the state file. */
    var state: StateFile

    constructor (sourceUsername: string, username: string, stateFilename: string, dryRun: bool,
                 tagger: string -> seq<TaggedWord>, state: StateFile)
      ensures this.sourceUsername == sourceUsername && this.username == username
      ensures this.stateFilename == stateFilename && this.dryRun == dryRun && this.tagger == tagger
      ensures this.state == state && published == []
    {
      this.sourceUsername := sourceUsername;
      this.username := username;
      this.stateFilename := stateFilename;
      this.dryRun := dryRun;
      this.tagger := tagger;
      this.state := state;
      published := [];
    }

    method LoadSinceId() returns (r: Option<int>)
      ensures r == Loaded(state)
    {
      if state.Saved? {
        return Some(state.sinceId);
      }
      return None;
    }

    method SaveSinceId(sinceId: int, now: real)
      modifies this`state
      ensures state == Written(sinceId, now, dryRun)
    {
      state := Truncated;
      if !dryRun {
        state := Saved(sinceId, now);
      }
    }

    method Tweet(message: string)
      modifies this`published
      ensures dryRun ==> published == old(published)
      ensures !dryRun ==> published == old(published) + [message]
    {
      if !dryRun {
        published := published + [message];
      }
    }

    method Process(status: Post)
      modifies this`published
      ensures dryRun ==> published == old(published)
      ensures !dryRun ==> published == old(published) + AsSeq(Publication(tagger, status))
    {
      if IsRetweet(status) {
        return;
      }
      if IsAtMention(status) {
        return;
      }
      var newText := CyberifyString(status.text, tagger(status.text));
      if newText.NotProcessed? {
        return;
      }
      Tweet(newText.text);
    }

    /** Fetches the statuses newer than `sinceId`, processes them oldest first
        and returns the id of the status the loop ended on. */
    method RunSince(sinceId: int, fetch: int -> seq<Post>) returns (newSinceId: int)
      modifies this`published
      ensures newSinceId == NextCursor(sinceId, fetch(sinceId))
      ensures dryRun ==> published == old(published)
      ensures !dryRun ==> published == old(published) + Outputs(tagger, OldestFirst(fetch(sinceId)))
    {
      var newTweets := fetch(sinceId);
      if newTweets == [] {
        return sinceId;
      }
      ghost var order := OldestFirst(newTweets);
      ghost var start := published;
      OldestFirstAt(newTweets);
      var i := |newTweets|;
      var status := newTweets[i - 1];
      while i > 0
        invariant 0 <= i <= |newTweets|
        invariant i < |newTweets| ==> status == newTweets[i]
        invariant dryRun ==> published == start
        invariant !dryRun ==> published == start + Outputs(tagger, order[..|newTweets| - i])
      {
        i := i - 1;
        status := newTweets[i];
        OutputsSnoc(tagger, order, |newTweets| - 1 - i);
        assert order[|newTweets| - 1 - i] == status;
        Process(status);
      }
      assert order[..|newTweets|] == order;
      return status.id;
    }

    /** One poll: load the cursor, process what is new, and save the new
        cursor when it moved. `ok` is false when the state file cannot be read. */
    method RunOnce(fetch: int -> seq<Post>, now: real) returns (ok: bool)
      modifies this`published, this`state
      ensures ok == old(state).Saved?
      ensures !ok ==> published == old(published) && state == old(state)
      ensures ok ==>
        var sinceId := old(state).sinceId;
        var next := NextCursor(sinceId, fetch(sinceId));
        (dryRun ==> published == old(published)) &&
        (!dryRun ==> published == old(published) + Outputs(tagger, OldestFirst(fetch(sinceId)))) &&
        state == (if next == sinceId then old(state) else Written(next, now, dryRun))
    {
      var loaded := LoadSinceId();
      if loaded.None? {
        return false;
      }
      var sinceId := loaded.value;
      var newSinceId := RunSince(sinceId, fetch);
      if newSinceId == sinceId {
        return true;
      }
      SaveSinceId(newSinceId, now);
      return true;
    }
  }

  // ---------------------------------------------------------------------
  // Properties of the engine

  /** `reversed` puts the k-th element from the end at position k. */
  lemma {:induction false} OldestFirstAt(posts: seq<Post>)
    ensures |OldestFirst(posts)| == |posts|
    ensures forall k :: 0 <= k < |posts| ==> OldestFirst(posts)[k] == posts[|posts| - 1 - k]
  {
    if posts != [] {
      OldestFirstAt(posts[1..]);
    }
  }

  /** A newest-first timeline is processed in increasing id order, ending on
      the status whose id becomes the cursor. */
  lemma ProcessedOldestFirst(sinceId: int, fetched: seq<Post>)
    requires NewestFirst(fetched)
    ensures |OldestFirst(fetched)| == |fetched|
    ensures forall i, j :: 0 <= i < j < |OldestFirst(fetched)| ==> OldestFirst(fetched)[i].id < OldestFirst(fetched)[j].id
    ensures fetched != [] ==> OldestFirst(fetched)[|fetched| - 1].id == NextCursor(sinceId, fetched)
  {
    OldestFirstAt(fetched);
  }

  /** The new cursor is the newest id fetched, however many statuses were
      skipped; with the collaborator's promise that every fetched id exceeds the
      since id, the cursor never moves back and moves exactly when something
      was fetched. */
  lemma CursorIsNewest(sinceId: int, fetched: seq<Post>)
    requires NewestFirst(fetched)
    requires forall p :: p in fetched ==> p.id > sinceId
    ensures NextCursor(sinceId, fetched) >= sinceId
    ensures NextCursor(sinceId, fetched) != sinceId <==> fetched != []
    ensures forall p :: p in fetched ==> p.id <= NextCursor(sinceId, fetched)
  {
  }

  /** Processing one more status appends what it yields. */
  lemma OutputsSnoc(tagger: string -> seq<TaggedWord>, posts: seq<Post>, k: nat)
    requires k < |posts|
    ensures Outputs(tagger, posts[..k + 1]) == Outputs(tagger, posts[..k]) + AsSeq(Publication(tagger, posts[k]))
  {
    assert posts[..k + 1][..k] == posts[..k];
  }

  /** Texts tweeted for a concatenation are the texts for each part, in order. */
  lemma {:induction false} OutputsAppend(tagger: string -> seq<TaggedWord>, a: seq<Post>, b: seq<Post>)
    ensures Outputs(tagger, a + b) == Outputs(tagger, a) + Outputs(tagger, b)
  {
    if b == [] {
      assert a + b == a;
    } else {
      assert (a + b)[..|a + b| - 1] == a + b[..|b| - 1];
      assert (a + b)[|a + b| - 1] == b[|b| - 1];
      OutputsAppend(tagger, a, b[..|b| - 1]);
    }
  }

  /** A text is tweeted exactly when some processed status yields it. */
  lemma {:induction false} OutputsExactly(tagger: string -> seq<TaggedWord>, posts: seq<Post>, s: string)
    ensures s in Outputs(tagger, posts) <==> exists k :: 0 <= k < |posts| && Publication(tagger, posts[k]) == Some(s)
  {
    if posts != [] {
      var init := posts[..|posts| - 1];
      OutputsExactly(tagger, init, s);
      assert forall k :: 0 <= k < |init| ==> init[k] == posts[k];
    }
  }

  /** Each status yields at most one tweet. */
  lemma {:induction false} OutputsLength(tagger: string -> seq<TaggedWord>, posts: seq<Post>)
    ensures |Outputs(tagger, posts)| <= |posts|
  {
    if posts != [] {
      OutputsLength(tagger, posts[..|posts| - 1]);
    }
  }

  /** Every text tweeted fits in 140 characters and holds "cyber". */
  lemma PublishedTextsValid(tagger: string -> seq<TaggedWord>, posts: seq<Post>, s: string)
    requires s in Outputs(tagger, posts)
    ensures |s| <= MaxLength && Occurs(s, Marker)
  {
    OutputsExactly(tagger, posts, s);
    var k :| 0 <= k < |posts| && Publication(tagger, posts[k]) == Some(s);
    SuccessIsShortAndPrefixed(posts[k].text, tagger(posts[k].text));
  }

  /** A batch of retweets and @mentions tweets nothing. */
  lemma {:induction false} SkippedBatchTweetsNothing(tagger: string -> seq<TaggedWord>, posts: seq<Post>)
    requires forall k :: 0 <= k < |posts| ==> IsRetweet(posts[k]) || IsAtMention(posts[k])
    ensures Outputs(tagger, posts) == []
  {
    if posts != [] {
      SkippedBatchTweetsNothing(tagger, posts[..|posts| - 1]);
    }
  }

  /** A real save is read back by the next load; a dry-run save leaves a file
      the next load cannot read. */
  lemma SaveLoadRoundTrip(sinceId: int, now: real)
    ensures Loaded(Written(sinceId, now, false)) == Some(sinceId)
    ensures Loaded(Written(sinceId, now, true)) == None
  {
  }
}
