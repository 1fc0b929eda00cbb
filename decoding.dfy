/**
 * The article acceptance step of the game loop (decodeArticle) and the
 * global `currentArticle` it overwrites field by field, plus the retry loop
 * that keeps fetching while articles are skipped.
 *
 * The JSON response is flattened into a RawArticle; a TypeError the
 * JavaScript would throw on a missing field is the explicit outcome Crashed.
 */
module Decoding {
  import opened Js

  /** The two subreddits the player must tell apart (the object R). */
  const THE_ONION := "theonion"
  const NOT_THE_ONION := "nottheonion"

  /** The titles' disallowed substrings as the array badWords lists them. */
  const BAD_WORDS: seq<string> := ["Quiz:", "?"]

  /**
   * What the loop `for (var word in badWords)` really tests: it binds the
   * array's keys, so the substrings looked for are the indices as text.
   */
  function AsWrittenChecks(): (checks: seq<string>)
    ensures checks == ["0", "1"]
  {
    ForInKeys(|BAD_WORDS|)
  }

  /** The substrings the bad-word check was meant to look for. */
  function IntendedChecks(): (checks: seq<string>)
  {
    BAD_WORDS
  }

  /**
   * The fields decodeArticle reads from response[0].data.children[0]:
   * `title`, `subreddit`, `link` and `preview.images[0].source.url` from its
   * `data`, and its `kind`. `preview` is Null when `preview.images[0].source`
   * cannot be reached, which makes the JavaScript chain throw; otherwise it
   * holds the value of `url`, which may itself be null or undefined.
   */
  datatype RawArticle = RawArticle(
    title: Nullable<string>,
    kind: Nullable<string>,
    subreddit: Nullable<string>,
    link: Nullable<string>,
    preview: Nullable<Nullable<string>>)

  /** The value of the global currentArticle at one moment. */
  datatype Article = Article(
    title: Nullable<string>,
    from: Nullable<string>,
    link: Nullable<string>,
    image: Nullable<string>)

  /** The field whose absence throws a TypeError. */
  datatype Fault = NullTitle | NullKind | NullSubreddit | MissingPreview

  datatype SkipReason = BadWord | SelfPost

  /** How one call of decodeArticle ends. */
  datatype Outcome =
    | Skipped(reason: SkipReason)  // iterate() is called again
    | Displayed                    // displayNextArticle() is called
    | MissingElements              // "Response missing elements." is logged
    | InvalidResponse              // "Response state invalid." is logged
    | Crashed(fault: Fault)        // a TypeError escapes the callback

  datatype Decoded = Decoded(outcome: Outcome, article: Article)

  /** `title.indexOf(word) > -1` for some word of `checks`. */
  predicate HasBadWord(title: string, checks: seq<string>)
  {
    exists k :: 0 <= k < |checks| && IndexOf(title, checks[k]) > -1
  }

  /** The kind marks a self post of either subreddit. */
  predicate IsSelfPost(kind: string)
  {
    IndexOf(kind, "self." + THE_ONION) > -1 || IndexOf(kind, "self." + NOT_THE_ONION) > -1
  }

  /** Every check passes and no field access throws. */
  predicate Acceptable(raw: RawArticle, checks: seq<string>)
  {
    && raw.title.NonNull? && !HasBadWord(raw.title.value, checks)
    && raw.kind.NonNull? && !IsSelfPost(raw.kind.value)
    && raw.subreddit.NonNull?
    && raw.preview.NonNull?
  }

  /** The article an acceptable record is turned into. */
  function Extracted(raw: RawArticle): (a: Article)
    requires raw.subreddit.NonNull? && raw.preview.NonNull?
  {
    Article(raw.title, NonNull(ToLower(raw.subreddit.value)), raw.link, raw.preview.value)
  }

  /**
   * One call of decodeArticle, as a function of currentArticle before the
   * call, the response and the substrings the bad-word loop looks for.
   */
  function Step(a: Article, response: Nullable<RawArticle>, checks: seq<string>): (d: Decoded)
  {
    match response
    case Null => Decoded(InvalidResponse, a)
    case NonNull(raw) =>
      var titled := a.(title := raw.title);
      if raw.title.Null? && |checks| > 0 then Decoded(Crashed(NullTitle), titled)
      else if raw.title.NonNull? && HasBadWord(raw.title.value, checks) then Decoded(Skipped(BadWord), titled)
      else if raw.kind.Null? then Decoded(Crashed(NullKind), titled)
      else if IsSelfPost(raw.kind.value) then Decoded(Skipped(SelfPost), titled)
      else if raw.subreddit.Null? then Decoded(Crashed(NullSubreddit), titled)
      else
        var linked := titled.(from := NonNull(ToLower(raw.subreddit.value)), link := raw.link);
        if raw.preview.Null? then Decoded(Crashed(MissingPreview), linked)
        else
          var full := linked.(image := raw.preview.value);
          if full.from.Null? || full.title.Null? then Decoded(MissingElements, full)
          else Decoded(Displayed, full)
  }

  /** The result of one network request of getRandomArticle. */
  datatype Fetch = Response(response: Nullable<RawArticle>) | RequestError

  /** How a run of the retry loop ends. */
  datatype Settlement =
    | Settled(outcome: Outcome)  // decodeArticle ended without calling iterate()
    | RequestFailed              // the ajax error callback ran; nothing retries
    | Waiting                    // the fetches ran out while still skipping

  datatype Run = Run(settlement: Settlement, consumed: nat, article: Article)

  /**
   * iterate() fed with the results of its requests in order, starting at
   * fetches[i]: skip after skip, until some request does not end in a skip.
   */
  function Pursue(a: Article, fetches: seq<Fetch>, i: nat, checks: seq<string>): (run: Run)
    requires i <= |fetches|
    decreases |fetches| - i
  {
    if i == |fetches| then Run(Waiting, i, a)
    else
      match fetches[i]
      case RequestError => Run(RequestFailed, i + 1, a)
      case Response(response) =>
        var d := Step(a, response, checks);
        if d.outcome.Skipped? then Pursue(d.article, fetches, i + 1, checks)
        else Run(Settled(d.outcome), i + 1, d.article)
  }

  /** The global currentArticle, whose fields decodeArticle overwrites in place. */
  class CurrentArticle {
    var title: Nullable<string>
    var from: Nullable<string>
    var link: Nullable<string>
    var image: Nullable<string>

    function Snapshot(): (a: Article)
      reads this
    {
      Article(title, from, link, image)
    }

    /** Every field starts out null. */
    constructor ()
      ensures Snapshot() == Article(Null, Null, Null, Null)
    {
      title, from, link, image := Null, Null, Null, Null;
    }

    /** decodeArticle(response), with the bad-word loop testing `checks`. */
    method Decode(response: Nullable<RawArticle>, checks: seq<string>) returns (outcome: Outcome)
      modifies this
      ensures Decoded(outcome, Snapshot()) == Step(old(Snapshot()), response, checks)
    {
      if response.Null? {
        return InvalidResponse;
      }
      var raw := response.value;
      title := raw.title;
      for k := 0 to |checks|
        invariant title == raw.title && from == old(from) && link == old(link) && image == old(image)
        invariant k > 0 ==> title.NonNull?
        invariant title.NonNull? ==> forall j :: 0 <= j < k ==> IndexOf(title.value, checks[j]) == -1
      {
        if title.Null? {
          return Crashed(NullTitle);
        }
        if IndexOf(title.value, checks[k]) > -1 {
          return Skipped(BadWord);
        }
      }
      if raw.kind.Null? {
        return Crashed(NullKind);
      }
      var kind := raw.kind.value;
      if IndexOf(kind, "self." + THE_ONION) > -1 || IndexOf(kind, "self." + NOT_THE_ONION) > -1 {
        return Skipped(SelfPost);
      }
      if raw.subreddit.Null? {
        return Crashed(NullSubreddit);
      }
      from := NonNull(ToLower(raw.subreddit.value));
      link := raw.link;
      if raw.preview.Null? {
        return Crashed(MissingPreview);
      }
      image := raw.preview.value;
      if from.Null? || title.Null? {
        outcome := MissingElements;
      } else {
        outcome := Displayed;
      }
    }

    /**
     * iterate() driven by the given request results: decode each response
     * in turn while it is skipped; stop at the first that is not, or at a
     * failed request. Returns how the loop ended and how many results it used.
     */
    method Iterate(fetches: seq<Fetch>, checks: seq<string>) returns (settlement: Settlement, consumed: nat)
      modifies this
      ensures Run(settlement, consumed, Snapshot()) == Pursue(old(Snapshot()), fetches, 0, checks)
    {
      consumed := 0;
      while consumed < |fetches|
        invariant consumed <= |fetches|
        invariant Pursue(old(Snapshot()), fetches, 0, checks) == Pursue(Snapshot(), fetches, consumed, checks)
      {
        match fetches[consumed]
        case RequestError =>
          return RequestFailed, consumed + 1;
        case Response(response) =>
          var outcome := Decode(response, checks);
          consumed := consumed + 1;
          if !outcome.Skipped? {
            return Settled(outcome), consumed;
          }
      }
      settlement := Waiting;
    }
  }
}

/** What one decodeArticle call and a run of the retry loop guarantee. */
module DecodingProperties {
  import opened Js
  import opened Decoding

  /** The record is skipped: it makes decodeArticle call iterate() again. */
  predicate Skips(raw: RawArticle, checks: seq<string>)
  {
    && (raw.title.NonNull? || checks == [])
    && ((raw.title.NonNull? && HasBadWord(raw.title.value, checks))
        || (raw.kind.NonNull? && IsSelfPost(raw.kind.value)))
  }

  /** A null or undefined response changes nothing and displays nothing. */
  lemma NullResponseIgnored(a: Article, checks: seq<string>)
    ensures Step(a, Null, checks) == Decoded(InvalidResponse, a)
  {
  }

  /**
   * A title holding a checked substring is skipped for that reason, and
   * this check runs before the self-post check.
   */
  lemma BadWordSkipIff(a: Article, raw: RawArticle, checks: seq<string>)
    ensures Step(a, NonNull(raw), checks).outcome == Skipped(BadWord)
        <==> raw.title.NonNull? && HasBadWord(raw.title.value, checks)
  {
  }

  /** A self post of either subreddit is skipped, unless the title check came first. */
  lemma SelfPostSkipIff(a: Article, raw: RawArticle, checks: seq<string>)
    ensures Step(a, NonNull(raw), checks).outcome == Skipped(SelfPost)
        <==> && (raw.title.NonNull? || checks == [])
             && !(raw.title.NonNull? && HasBadWord(raw.title.value, checks))
             && raw.kind.NonNull? && IsSelfPost(raw.kind.value)
  {
  }

  /** On either skip only the title has been overwritten. */
  lemma SkipOverwritesOnlyTitle(a: Article, response: Nullable<RawArticle>, checks: seq<string>)
    ensures Step(a, response, checks).outcome.Skipped? <==> response.NonNull? && Skips(response.value, checks)
    ensures Step(a, response, checks).outcome.Skipped? ==>
      Step(a, response, checks).article == a.(title := response.value.title)
  {
  }

  /**
   * A record is displayed exactly when it passes every check and no field
   * access throws; the displayed article is then the record's own title,
   * its lower-cased subreddit, its link and its preview image, whatever
   * currentArticle held before.
   */
  lemma {:induction false} DisplayedIffAcceptable(a: Article, response: Nullable<RawArticle>, checks: seq<string>)
    ensures Step(a, response, checks).outcome == Displayed <==> response.NonNull? && Acceptable(response.value, checks)
    ensures Step(a, response, checks).outcome == Displayed ==>
      && Step(a, response, checks).article == Extracted(response.value)
      && Step(a, response, checks).article.title.NonNull?
      && !HasBadWord(Step(a, response, checks).article.title.value, checks)
      && Step(a, response, checks).article.from == NonNull(ToLower(response.value.subreddit.value))
  {
  }

  /**
   * The null check after the extraction is reached with a null title only
   * when the bad-word loop ran no iteration; with a non-empty list of
   * checked substrings it never fires.
   */
  lemma MissingElementsIff(a: Article, raw: RawArticle, checks: seq<string>)
    ensures Step(a, NonNull(raw), checks).outcome == MissingElements
        <==> && checks == [] && raw.title.Null?
             && raw.kind.NonNull? && !IsSelfPost(raw.kind.value)
             && raw.subreddit.NonNull? && raw.preview.NonNull?
  {
  }

  /** As written the bad-word loop skips exactly the titles holding a 0 or a 1. */
  lemma {:induction false} AsWrittenSkipsDigits(a: Article, raw: RawArticle)
    ensures Step(a, NonNull(raw), AsWrittenChecks()).outcome == Skipped(BadWord)
        <==> raw.title.NonNull? && ('0' in raw.title.value || '1' in raw.title.value)
  {
    if raw.title.NonNull? {
      var t := raw.title.value;
      var checks := AsWrittenChecks();
      OccursChar(t, '0');
      OccursChar(t, '1');
      assert HasBadWord(t, checks) <==> IndexOf(t, checks[0]) > -1 || IndexOf(t, checks[1]) > -1;
    }
  }

  /** With the intended list, the titles skipped are those holding "Quiz:" or "?". */
  lemma {:induction false} IntendedSkipsBadWords(a: Article, raw: RawArticle)
    ensures Step(a, NonNull(raw), IntendedChecks()).outcome == Skipped(BadWord)
        <==> raw.title.NonNull? && (Occurs(raw.title.value, "Quiz:") || Occurs(raw.title.value, "?"))
  {
    if raw.title.NonNull? {
      var t := raw.title.value;
      var checks := IntendedChecks();
      assert HasBadWord(t, checks) <==> IndexOf(t, checks[0]) > -1 || IndexOf(t, checks[1]) > -1;
    }
  }

  /** A quiz title with a question mark, from an ordinary link post of r/TheOnion. */
  const QUIZ := RawArticle(NonNull("Quiz: Are you a chicken?"), NonNull("t3"), NonNull("TheOnion"),
                           NonNull("http://x"), NonNull(NonNull("http://x/img.png")))

  /** As written the quiz title is displayed; with the intended list it is skipped. */
  lemma QuizTitleDisplayedAsWritten(a: Article)
    ensures Step(a, NonNull(QUIZ), AsWrittenChecks()).outcome == Displayed
    ensures Step(a, NonNull(QUIZ), IntendedChecks()).outcome == Skipped(BadWord)
  {
    var t := QUIZ.title.value;
    assert t[23] == '?';
    assert '0' !in t && '1' !in t;
    AsWrittenSkipsDigits(a, QUIZ);
    var kind := QUIZ.kind.value;
    assert 's' !in kind;
    if Occurs(kind, "self." + THE_ONION) { OccursHead(kind, "self." + THE_ONION); }
    if Occurs(kind, "self." + NOT_THE_ONION) { OccursHead(kind, "self." + NOT_THE_ONION); }
    DisplayedIffAcceptable(a, NonNull(QUIZ), AsWrittenChecks());
    OccursChar(t, '?');
    IntendedSkipsBadWords(a, QUIZ);
  }

  /** As written an ordinary title with a number in it is skipped. */
  lemma NumberTitleSkippedAsWritten(a: Article)
    ensures Step(a, NonNull(QUIZ.(title := NonNull("10 Signs Of Spring"))), AsWrittenChecks()).outcome
         == Skipped(BadWord)
  {
    AsWrittenSkipsDigits(a, QUIZ.(title := NonNull("10 Signs Of Spring")));
  }

  /** A record without a preview image throws after `from` and `link` were overwritten. */
  lemma MissingPreviewThrows(a: Article, raw: RawArticle, checks: seq<string>)
    requires raw.title.NonNull? && !HasBadWord(raw.title.value, checks)
    requires raw.kind.NonNull? && !IsSelfPost(raw.kind.value) && raw.subreddit.NonNull?
    requires raw.preview.Null?
    ensures Step(a, NonNull(raw), checks)
         == Decoded(Crashed(MissingPreview),
                    a.(title := raw.title, from := NonNull(ToLower(raw.subreddit.value)), link := raw.link))
  {
  }

  /**
   * A preview whose `url` is null or undefined does not throw: the article
   * is displayed and `image` is overwritten with null.
   */
  lemma MissingUrlDisplayedWithoutImage(a: Article, raw: RawArticle, checks: seq<string>)
    requires raw.title.NonNull? && !HasBadWord(raw.title.value, checks)
    requires raw.kind.NonNull? && !IsSelfPost(raw.kind.value) && raw.subreddit.NonNull?
    requires raw.preview == NonNull(Null)
    ensures Step(a, NonNull(raw), checks)
         == Decoded(Displayed, Article(raw.title, NonNull(ToLower(raw.subreddit.value)), raw.link, Null))
  {
  }

  /**
   * The subreddit is never compared with the two known ones: a record from
   * any other subreddit is displayed, with that subreddit as `from`.
   */
  lemma OtherSubredditDisplayed(a: Article)
    ensures Step(a, NonNull(QUIZ.(title := NonNull("Cat"), subreddit := NonNull("Pics"))), IntendedChecks())
         == Decoded(Displayed, Article(NonNull("Cat"), NonNull("pics"), NonNull("http://x"), NonNull("http://x/img.png")))
  {
    var raw := QUIZ.(title := NonNull("Cat"), subreddit := NonNull("Pics"));
    var checks := IntendedChecks();
    if Occurs("Cat", "Quiz:") { OccursHead("Cat", "Quiz:"); }
    OccursChar("Cat", '?');
    IntendedSkipsBadWords(a, raw);
    var kind := raw.kind.value;
    assert 's' !in kind;
    if Occurs(kind, "self." + THE_ONION) { OccursHead(kind, "self." + THE_ONION); }
    if Occurs(kind, "self." + NOT_THE_ONION) { OccursHead(kind, "self." + NOT_THE_ONION); }
    DisplayedIffAcceptable(a, NonNull(raw), checks);
    var lower := ToLower("Pics");
    assert lower[0] == 'p' && lower[1..] == "ics";
    assert lower == "pics";
  }

  /**
   * A run of the retry loop from fetches[i]: every result it used before the
   * last was a response that was skipped (all of them if it is still
   * waiting), and when it ends in a display, the last result used is an
   * acceptable record and currentArticle is made from it alone.
   */
  lemma {:induction false} PursueDisplaysOnlyAcceptable(a: Article, fetches: seq<Fetch>, i: nat, checks: seq<string>)
    requires i <= |fetches|
    ensures var run := Pursue(a, fetches, i, checks);
      && i <= run.consumed <= |fetches|
      && (run.settlement == Waiting ==> run.consumed == |fetches|)
      && (run.settlement != Waiting ==> i < run.consumed)
      && (forall j :: i <= j < run.consumed && (j < run.consumed - 1 || run.settlement == Waiting) ==>
            fetches[j].Response? && fetches[j].response.NonNull? && Skips(fetches[j].response.value, checks))
      && (run.settlement == RequestFailed ==> fetches[run.consumed - 1] == RequestError)
      && (run.settlement == Settled(Displayed) ==>
            && fetches[run.consumed - 1].Response?
            && fetches[run.consumed - 1].response.NonNull?
            && Acceptable(fetches[run.consumed - 1].response.value, checks)
            && run.article == Extracted(fetches[run.consumed - 1].response.value))
    decreases |fetches| - i
  {
    if i < |fetches| {
      match fetches[i]
      case RequestError =>
      case Response(response) =>
        var d := Step(a, response, checks);
        SkipOverwritesOnlyTitle(a, response, checks);
        DisplayedIffAcceptable(a, response, checks);
        if d.outcome.Skipped? {
          PursueDisplaysOnlyAcceptable(d.article, fetches, i + 1, checks);
        }
    }
  }
}
