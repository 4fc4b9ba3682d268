/**
 * IFormRequest: the iFormBuilder API client's record paging (`get`) and its
 * two-attempt write retry (`post`, `put`, `delete`).
 *
 * The server is a sequence of replies, already measured (mb_strlen of the raw
 * body) and decoded (json_decode into objects). A call past the end of that
 * sequence is a failed transport call: curl_exec gives false, which measures 0
 * and decodes to null. Minting a token is abstracted to "the n-th token the
 * credential exchange issued".
 */
module IForm {
  import opened Php
  import opened IFormOptions

  /** The token `generateToken` stores: the one issued by the n-th credential exchange. */
  datatype Token = Minted(generation: nat)

  /** One decoded server reply, with the length of its raw body in characters. */
  datatype Reply = Reply(length: nat, body: Doc)

  /**
   * One GET as it leaves the client: the URL up to `offset=`, the offset the
   * client appends to it, and the bearer token in its header.
   */
  datatype Request = Request(base: string, offset: nat, bearer: Option<Token>)
  {
    /** The full URL requested. */
    function Target(): string
    {
      base + NatToString(offset)
    }
  }

  /** The write verbs; the three write methods differ only in this. */
  datatype Verb = Post | Put | Delete

  /** One write call as it leaves the client: verb, URL, payload and bearer token. */
  datatype Call = Call(verb: Verb, target: string, payload: Doc, bearer: Option<Token>)

  /** What a failed transport call reads as. */
  const Failure := Reply(0, Null)

  /** A response body of more than 1024 KB (`mb_strlen / 1024 > 1024`). */
  const LargeBody := 1024 * 1024

  /** The records per page below which the collection is taken as exhausted. */
  const PageSize := 100

  function ReplyAt(server: seq<Reply>, i: nat): Reply
  {
    if i < |server| then server[i] else Failure
  }

  /** The first `n` replies the server gives. */
  function Replies(server: seq<Reply>, n: nat): (rs: seq<Reply>)
    ensures |rs| == n
  {
    if n == 0 then [] else Replies(server, n - 1) + [ReplyAt(server, n - 1)]
  }

  /** Reply i of the consumed ones is the server's i-th reply, or a failure past its end. */
  lemma {:induction false} RepliesSpec(server: seq<Reply>, n: nat)
    ensures forall i :: 0 <= i < n ==> Replies(server, n)[i] == ReplyAt(server, i)
    ensures n <= |server| ==> Replies(server, n) == server[..n]
  {
    if n > 0 {
      RepliesSpec(server, n - 1);
    }
  }

  /** The decoded body of the i-th write reply; null past the end. */
  function BodyAt(server: seq<Doc>, i: nat): Doc
  {
    if i < |server| then server[i] else Null
  }

  // ---------------------------------------------------------------------------
  // How one reply is read

  /**
   * The reply reports an expired token: its `error_message` is a string that
   * lower-cases to `invalid access token`. TokenExpiredAsWritten shows this is
   * the source's isset-and-cast test.
   */
  predicate TokenExpired(d: Doc)
  {
    var e := Get(d, "error_message");
    e.Str? && Lower(e.s) == "invalid access token"
  }

  /**
   * The source tests that `error_message` is set and that its string cast,
   * lower-cased, is `invalid access token`; only a string value can pass,
   * since a number casts to digits, a boolean to "1" or "", an array to "Array".
   */
  lemma TokenExpiredAsWritten(d: Doc)
    ensures TokenExpired(d)
        <==> Isset(d, "error_message") && Lower(AsString(Get(d, "error_message"))) == "invalid access token"
  {
    var e := Get(d, "error_message");
    if e.Num? {
      var s := IntToString(e.n);
      assert s[0] == '-' || '0' <= s[0] <= '9';
      assert Lower(s)[0] == LowerChar(s[0]);
    }
  }

  /** The number of records a reply carries: the length of a non-empty array, else 0. */
  function RecordCount(d: Doc): nat
  {
    if d.List? && |d.items| > 0 then |d.items| else 0
  }

  /** What merging a reply appends: its records, or the reply itself when it is no error, or nothing. */
  function Contribution(d: Doc): seq<Doc>
  {
    if RecordCount(d) > 0 then d.items
    else if !Isset(d, "error_message") then [d]
    else []
  }

  /** A page that looks full: at least 100 records, or a body over 1024 KB. */
  predicate LooksFull(r: Reply)
  {
    RecordCount(r.body) >= PageSize || r.length > LargeBody
  }

  // ---------------------------------------------------------------------------
  // The session over the replies consumed so far

  /** The result collection after the given replies: contributions in arrival order. */
  function Merged(rs: seq<Reply>): seq<Doc>
  {
    if rs == [] then [] else Merged(rs[..|rs| - 1]) + Contribution(rs[|rs| - 1].body)
  }

  /** The offset after the given replies: the total of their record counts. */
  function RecordsFetched(rs: seq<Reply>): nat
  {
    if rs == [] then 0 else RecordsFetched(rs[..|rs| - 1]) + RecordCount(rs[|rs| - 1].body)
  }

  /** How many of the given replies reported an expired token. */
  function ExpiredCount(rs: seq<Reply>): nat
    ensures ExpiredCount(rs) <= |rs|
  {
    if rs == [] then 0 else ExpiredCount(rs[..|rs| - 1]) + (if TokenExpired(rs[|rs| - 1].body) then 1 else 0)
  }

  /** How many replies merged something or nothing without an expiry: the counted requests. */
  function ServedCount(rs: seq<Reply>): nat
  {
    |rs| - ExpiredCount(rs)
  }

  /** The token after `refreshes` calls to generateToken, starting from `token` with `minted` tokens issued. */
  function TokenAfter(token: Option<Token>, minted: nat, refreshes: nat): Option<Token>
  {
    if refreshes == 0 then token else Some(Minted(minted + refreshes - 1))
  }

  /** One more reply: the merged results extend by that reply's contribution. */
  lemma MergedSnoc(rs: seq<Reply>, r: Reply)
    ensures Merged(rs + [r]) == Merged(rs) + Contribution(r.body)
  {
    assert (rs + [r])[..|rs|] == rs;
  }

  /** One more reply: the records fetched grow by that reply's record count. */
  lemma FetchedSnoc(rs: seq<Reply>, r: Reply)
    ensures RecordsFetched(rs + [r]) == RecordsFetched(rs) + RecordCount(r.body)
  {
    assert (rs + [r])[..|rs|] == rs;
  }

  /** One more reply: the expiries grow by one exactly when that reply reports an expired token. */
  lemma ExpiredSnoc(rs: seq<Reply>, r: Reply)
    ensures ExpiredCount(rs + [r]) == ExpiredCount(rs) + (if TokenExpired(r.body) then 1 else 0)
  {
    assert (rs + [r])[..|rs|] == rs;
  }

  /** Every served reply before the last looked full: the loop only went on after full pages. */
  predicate EarlierPagesFull(rs: seq<Reply>)
  {
    |rs| <= 1 || (EarlierPagesFull(rs[..|rs| - 1]) && (TokenExpired(rs[|rs| - 2].body) || LooksFull(rs[|rs| - 2])))
  }

  lemma EarlierPagesFullSnoc(rs: seq<Reply>, r: Reply)
    requires EarlierPagesFull(rs)
    requires |rs| > 0 && !TokenExpired(rs[|rs| - 1].body) ==> LooksFull(rs[|rs| - 1])
    ensures EarlierPagesFull(rs + [r])
  {
    assert (rs + [r])[..|rs|] == rs;
  }

  /** EarlierPagesFull read position by position. */
  lemma {:induction false} EarlierPagesFullSpec(rs: seq<Reply>)
    ensures EarlierPagesFull(rs) <==> forall j :: 0 <= j < |rs| - 1 && !TokenExpired(rs[j].body) ==> LooksFull(rs[j])
    decreases |rs|
  {
    if |rs| > 1 {
      var init := rs[..|rs| - 1];
      EarlierPagesFullSpec(init);
      assert forall j :: 0 <= j < |init| ==> init[j] == rs[j];
    }
  }

  /** The paging loop's variables between two passes. */
  datatype Pass = Pass(results: seq<Doc>, offset: nat, requestCount: nat, tokenAttempts: nat, keepGoing: bool, tryAgain: bool)

  /** The loop's variables before the first pass. */
  const Start := Pass([], 0, 0, 0, true, false)

  /** One pass over one reply: re-request after an expired token, otherwise merge, advance and decide whether to go on. */
  function Step(p: Pass, r: Reply, max: nat): Pass
  {
    if TokenExpired(r.body) then p.(tryAgain := true, tokenAttempts := p.tokenAttempts + 1)
    else
      var count := RecordCount(r.body);
      Pass(p.results + Contribution(r.body), p.offset + count, p.requestCount + 1, p.tokenAttempts,
           p.requestCount + 1 < max && (count >= PageSize || r.length > LargeBody), false)
  }

  /** The loop's variables after passes over the server's first `n` replies. */
  function Run(server: seq<Reply>, n: nat, max: nat): Pass
  {
    if n == 0 then Start else Step(Run(server, n - 1, max), ReplyAt(server, n - 1), max)
  }

  /** The do-while condition: go on while pages look full, or once more after an expired token. */
  predicate Continues(p: Pass)
  {
    p.keepGoing || (p.tryAgain && p.requestCount < 2)
  }

  /** The loop went on after each of the first `n` passes but the last: `n` passes are a possible run. */
  predicate ContinuedThrough(server: seq<Reply>, n: nat, max: nat)
  {
    n == 0 || (ContinuedThrough(server, n - 1, max) && Continues(Run(server, n - 1, max)))
  }

  /** The requests of the first `n` passes: each at the offset and with the token the earlier passes left. */
  function Requests(server: seq<Reply>, n: nat, max: nat, base: string, token: Option<Token>, minted: nat): (sent: seq<Request>)
    ensures |sent| == n
  {
    if n == 0 then []
    else
      var p := Run(server, n - 1, max);
      Requests(server, n - 1, max, base, token, minted) + [Request(base, p.offset, TokenAfter(token, minted, p.tokenAttempts))]
  }

  /** Whatever the replies, the loop's results are their contributions merged in arrival order. */
  lemma {:induction false} RunResults(server: seq<Reply>, n: nat, max: nat)
    ensures Run(server, n, max).results == Merged(Replies(server, n))
  {
    if n > 0 {
      RunResults(server, n - 1, max);
      MergedSnoc(Replies(server, n - 1), ReplyAt(server, n - 1));
    }
  }

  /** Whatever the replies, the loop's offset is the total of their record counts. */
  lemma {:induction false} RunOffset(server: seq<Reply>, n: nat, max: nat)
    ensures Run(server, n, max).offset == RecordsFetched(Replies(server, n))
  {
    if n > 0 {
      RunOffset(server, n - 1, max);
      FetchedSnoc(Replies(server, n - 1), ReplyAt(server, n - 1));
    }
  }

  /** The loop's counters split the replies consumed into expiries and counted requests. */
  lemma {:induction false} RunCounts(server: seq<Reply>, n: nat, max: nat)
    ensures var p, rs := Run(server, n, max), Replies(server, n);
      && p.tokenAttempts == ExpiredCount(rs)
      && p.requestCount == ServedCount(rs)
  {
    if n > 0 {
      RunCounts(server, n - 1, max);
      ExpiredSnoc(Replies(server, n - 1), ReplyAt(server, n - 1));
    }
  }

  /**
   * Over a possible run: the request count stays within the cap; a re-request
   * is pending exactly after an expired-token reply, and then the loop goes on;
   * it goes on after a served reply only when that page looked full below the
   * cap; and when it stops, the last reply was served and was either not full
   * or hit the cap.
   */
  lemma {:induction false} RunStops(server: seq<Reply>, n: nat, max: nat)
    requires max > 0 && ContinuedThrough(server, n, max)
    ensures var p := Run(server, n, max);
      && p.requestCount <= max
      && (p.tryAgain ==> p.keepGoing)
      && (p.tryAgain <==> n > 0 && TokenExpired(ReplyAt(server, n - 1).body))
      && (p.keepGoing ==> p.requestCount < max)
      && (p.keepGoing && n > 0 && !p.tryAgain ==> LooksFull(ReplyAt(server, n - 1)))
      && (!p.keepGoing ==>
            && n > 0 && !TokenExpired(ReplyAt(server, n - 1).body)
            && (p.requestCount == max || !LooksFull(ReplyAt(server, n - 1))))
  {
    if n > 0 {
      RunStops(server, n - 1, max);
    }
  }

  /** Over a possible run every served reply but the last looked full. */
  lemma {:induction false} RunFullPages(server: seq<Reply>, n: nat, max: nat)
    requires max > 0 && ContinuedThrough(server, n, max)
    ensures EarlierPagesFull(Replies(server, n))
  {
    if n > 0 {
      RunFullPages(server, n - 1, max);
      RunStops(server, n - 1, max);
      var init := Replies(server, n - 1);
      assert Replies(server, n) == init + [ReplyAt(server, n - 1)];
      if n > 1 { assert init[n - 2] == ReplyAt(server, n - 2); }
      EarlierPagesFullSnoc(init, ReplyAt(server, n - 1));
    }
  }

  /**
   * What a finished run of the paging loop amounts to, for the replies it
   * consumed: the merged results and the final offset; the cap kept; the last
   * reply served and either not full or at the cap; every earlier served page
   * full.
   */
  lemma RunOutcome(server: seq<Reply>, n: nat, max: nat)
    requires max > 0 && ContinuedThrough(server, n, max) && !Continues(Run(server, n, max))
    ensures var p, rs := Run(server, n, max), Replies(server, n);
      && n >= 1
      && p.results == Merged(rs)
      && p.offset == RecordsFetched(rs)
      && p.tokenAttempts == ExpiredCount(rs)
      && p.requestCount + p.tokenAttempts == |rs|
      && ServedCount(rs) <= max
      && !TokenExpired(rs[n - 1].body)
      && (ServedCount(rs) == max || !LooksFull(rs[n - 1]))
      && EarlierPagesFull(rs)
  {
    RunResults(server, n, max);
    RunOffset(server, n, max);
    RunCounts(server, n, max);
    RunStops(server, n, max);
    RunFullPages(server, n, max);
    RepliesLast(server, n);
  }

  /**
   * As written, an expired-token reply skips the update of `keepGoing`, which
   * starts true: however many expiries come first, the loop is still going
   * after them, with no request counted and every expiry counted as a token
   * attempt. The `$iRequestCount < 2` failsafe is never consulted.
   */
  lemma {:induction false} ExpiriesKeepGoing(server: seq<Reply>, n: nat, max: nat)
    requires forall i :: 0 <= i < n ==> TokenExpired(ReplyAt(server, i).body)
    ensures Run(server, n, max) == Pass([], 0, 0, n, true, n > 0)
    ensures ContinuedThrough(server, n + 1, max)
  {
    if n > 0 {
      ExpiriesKeepGoing(server, n - 1, max);
    }
  }

  /**
   * A server that answers `n` times with an expired-token reply `r`: the loop
   * makes an (n+1)-th request, for every `n`, so nothing bounds the passes.
   */
  lemma ExpiriesUnbounded(r: Reply, n: nat, max: nat)
    requires TokenExpired(r.body)
    ensures ContinuedThrough(seq(n, i => r), n + 1, max)
    ensures Run(seq(n, i => r), n, max).tokenAttempts == n
  {
    ExpiriesKeepGoing(seq(n, i => r), n, max);
  }

  /** `n` expiries and then a short page: `n + 1` passes, one counted request and `n` token attempts. */
  lemma ExpiriesThenShortPage(server: seq<Reply>, n: nat, max: nat)
    requires max > 0
    requires forall i :: 0 <= i < n ==> TokenExpired(ReplyAt(server, i).body)
    requires !TokenExpired(ReplyAt(server, n).body) && !LooksFull(ReplyAt(server, n))
    ensures ContinuedThrough(server, n + 1, max) && !Continues(Run(server, n + 1, max))
    ensures Run(server, n + 1, max).requestCount == 1 && Run(server, n + 1, max).tokenAttempts == n
  {
    ExpiriesKeepGoing(server, n, max);
  }

  // The loop as its failsafe comment intends: an expired token ends the
  // "keep going" state, and the re-request is bounded by the token attempts.

  /** One pass under the bounded rule: an expiry stops `keepGoing`; a served reply is as before. */
  function BoundedStep(p: Pass, r: Reply, max: nat): Pass
  {
    if TokenExpired(r.body) then p.(keepGoing := false, tryAgain := true, tokenAttempts := p.tokenAttempts + 1)
    else Step(p, r, max)
  }

  function BoundedRun(server: seq<Reply>, n: nat, max: nat): Pass
  {
    if n == 0 then Start else BoundedStep(BoundedRun(server, n - 1, max), ReplyAt(server, n - 1), max)
  }

  /** Go on while pages look full, or re-request after an expiry while fewer than two token attempts were made. */
  predicate BoundedContinues(p: Pass)
  {
    p.keepGoing || (p.tryAgain && p.tokenAttempts < 2)
  }

  predicate BoundedThrough(server: seq<Reply>, n: nat, max: nat)
  {
    n == 0 || (BoundedThrough(server, n - 1, max) && BoundedContinues(BoundedRun(server, n - 1, max)))
  }

  /** Over a possible bounded run: each pass is a request or a token attempt, both capped. */
  lemma {:induction false} BoundedRunCounts(server: seq<Reply>, n: nat, max: nat)
    requires max > 0 && BoundedThrough(server, n, max)
    ensures var p := BoundedRun(server, n, max);
      && p.requestCount + p.tokenAttempts == n
      && p.requestCount <= max && p.tokenAttempts <= 2
      && (p.keepGoing ==> p.requestCount < max)
      && (BoundedContinues(p) ==> p.tokenAttempts <= 1)
  {
    if n > 0 {
      BoundedRunCounts(server, n - 1, max);
    }
  }

  /** Whatever the server answers, the bounded loop stops within `max + 2` passes. */
  lemma BoundedPasses(server: seq<Reply>, n: nat, max: nat)
    requires max > 0 && BoundedThrough(server, n, max)
    ensures n <= max + 2
  {
    BoundedRunCounts(server, n, max);
  }

  /** While no token expires, the bounded loop is the loop as written. */
  lemma {:induction false} BoundedAgrees(server: seq<Reply>, n: nat, max: nat)
    requires forall i :: 0 <= i < n ==> !TokenExpired(ReplyAt(server, i).body)
    ensures BoundedRun(server, n, max) == Run(server, n, max)
    ensures BoundedThrough(server, n, max) <==> ContinuedThrough(server, n, max)
  {
    if n > 0 {
      BoundedAgrees(server, n - 1, max);
    }
  }

  /** The last reply consumed is the server's reply at that position. */
  lemma RepliesLast(server: seq<Reply>, n: nat)
    requires n > 0
    ensures Replies(server, n)[n - 1] == ReplyAt(server, n - 1)
  {
  }

  /**
   * Where the paging loop stands after `k` passes: the pass is Run's, every
   * pass so far was allowed to start, the requests are those of the passes,
   * and the token is the one left after the expiries seen.
   */
  ghost predicate Paged(server: seq<Reply>, max: nat, base: string, token0: Option<Token>, minted0: nat,
                        k: nat, p: Pass, sent: seq<Request>, token: Option<Token>, minted: nat)
  {
    && k == |sent| && k <= |server| + 1
    && p == Run(server, k, max)
    && ContinuedThrough(server, k, max)
    && (p.keepGoing || p.tryAgain ==> k <= |server|)
    && sent == Requests(server, k, max, base, token0, minted0)
    && token == TokenAfter(token0, minted0, p.tokenAttempts)
    && minted == minted0 + p.tokenAttempts
  }

  /** One more pass keeps the paging loop's account. */
  lemma PagedStep(server: seq<Reply>, max: nat, base: string, token0: Option<Token>, minted0: nat,
                  k: nat, p: Pass, sent: seq<Request>, token: Option<Token>, minted: nat)
    requires Paged(server, max, base, token0, minted0, k, p, sent, token, minted) && Continues(p)
    ensures var next := Step(p, ReplyAt(server, k), max);
      Paged(server, max, base, token0, minted0, k + 1, next, sent + [Request(base, p.offset, token)],
            TokenAfter(token0, minted0, next.tokenAttempts), minted0 + next.tokenAttempts)
  {
  }

  /**
   * What a finished paging loop has to show: one request per reply consumed,
   * the results and offset of those replies, a last reply that is served and
   * either not full or at the cap, every earlier served page full, the
   * requests of the passes and the token left after the expiries.
   */
  ghost predicate Collected(server: seq<Reply>, max: nat, base: string, token0: Option<Token>, minted0: nat,
                            results: seq<Doc>, offset: nat, sent: seq<Request>, token: Option<Token>, minted: nat)
  {
    var rs := Replies(server, |sent|);
    && |sent| >= 1
    && results == Merged(rs)
    && offset == RecordsFetched(rs)
    && ServedCount(rs) <= max
    && !TokenExpired(rs[|rs| - 1].body)
    && (ServedCount(rs) == max || !LooksFull(rs[|rs| - 1]))
    && EarlierPagesFull(rs)
    && sent == Requests(server, |sent|, max, base, token0, minted0)
    && token == TokenAfter(token0, minted0, ExpiredCount(rs))
    && minted == minted0 + ExpiredCount(rs)
  }

  /** When the loop stops, its account is RunOutcome's. */
  lemma PagedOutcome(server: seq<Reply>, max: nat, base: string, token0: Option<Token>, minted0: nat,
                     k: nat, p: Pass, sent: seq<Request>, token: Option<Token>, minted: nat)
    requires max > 0 && Paged(server, max, base, token0, minted0, k, p, sent, token, minted) && !Continues(p)
    ensures Collected(server, max, base, token0, minted0, p.results, p.offset, sent, token, minted)
    ensures p.requestCount + p.tokenAttempts == |Replies(server, |sent|)|
  {
    RunOutcome(server, k, max);
    var rs := Replies(server, k);
    assert p.tokenAttempts == ExpiredCount(rs);
    assert token == TokenAfter(token0, minted0, ExpiredCount(rs)) && minted == minted0 + ExpiredCount(rs);
    assert Collected(server, max, base, token0, minted0, p.results, p.offset, sent, token, minted);
  }

  /**
   * What a GET of `url` amounts to: the paging loop's account over the URL
   * with `offset=` added, the offset being the records fetched.
   */
  ghost predicate Fetched(server: seq<Reply>, max: nat, url: string, token0: Option<Token>, minted0: nat,
                          results: seq<Doc>, sent: seq<Request>, token: Option<Token>, minted: nat)
  {
    Collected(server, max, WithOffsetParameter(url), token0, minted0, results,
              RecordsFetched(Replies(server, |sent|)), sent, token, minted)
  }

  /** After a GET the token is the one left after the expiries seen, and the requests number at least one. */
  lemma FetchedToken(server: seq<Reply>, max: nat, url: string, token0: Option<Token>, minted0: nat,
                     results: seq<Doc>, sent: seq<Request>, token: Option<Token>, minted: nat)
    requires Fetched(server, max, url, token0, minted0, results, sent, token, minted)
    ensures |sent| >= 1
    ensures token == TokenAfter(token0, minted0, ExpiredCount(Replies(server, |sent|)))
    ensures minted == minted0 + ExpiredCount(Replies(server, |sent|))
  {
  }

  /** Request j went out at the offset reached after the first j replies, with the token left after their expiries. */
  lemma {:induction false} RequestAt(server: seq<Reply>, n: nat, max: nat, base: string, token: Option<Token>, minted: nat, j: nat)
    requires j < n
    ensures var rs := Replies(server, j);
      Requests(server, n, max, base, token, minted)[j]
        == Request(base, RecordsFetched(rs), TokenAfter(token, minted, ExpiredCount(rs)))
    decreases n
  {
    if j < n - 1 {
      RequestAt(server, n - 1, max, base, token, minted, j);
    } else {
      RunOffset(server, j, max);
      RunCounts(server, j, max);
    }
  }

  /** The replies consumed after one more call. */
  lemma RepliesSnoc(server: seq<Reply>, n: nat)
    ensures Replies(server, n + 1) == Replies(server, n) + [ReplyAt(server, n)]
  {
  }

  /** How many calls a write makes: a second one only after an expired-token reply to the first. */
  function WriteAttempts(server: seq<Doc>): (n: nat)
    ensures 1 <= n <= 2
    ensures n == 2 <==> TokenExpired(BodyAt(server, 0))
  {
    if TokenExpired(BodyAt(server, 0)) then 2 else 1
  }

  /** How many of the first `n` write replies reported an expired token. */
  function WriteExpiries(server: seq<Doc>, n: nat): nat
    requires n <= 2
  {
    (if n >= 1 && TokenExpired(BodyAt(server, 0)) then 1 else 0)
    + (if n == 2 && TokenExpired(BodyAt(server, 1)) then 1 else 0)
  }

  /** The calls of the first `n` write attempts: the first with `first`, a retry with the token issued next. */
  function WriteCalls(verb: Verb, url: string, payload: Doc, first: Option<Token>, issued: nat, n: nat): (calls: seq<Call>)
    requires n <= 2
    ensures |calls| == n
  {
    (if n >= 1 then [Call(verb, url, payload, first)] else [])
    + (if n == 2 then [Call(verb, url, payload, Some(Minted(issued)))] else [])
  }

  /**
   * Where the write loop stands after `|sent|` attempts, with `first` the
   * token of the first attempt and `issued` the count of tokens issued before it.
   */
  ghost predicate Writing(replies: seq<Doc>, verb: Verb, url: string, payload: Doc, first: Option<Token>, issued: nat,
                          sent: seq<Call>, i: nat, tryAgain: bool, response: Doc, token: Option<Token>, minted: nat)
  {
    && |sent| <= 2
    && (if tryAgain then i == |sent| else |sent| >= 1 && i == |sent| - 1)
    && (|sent| >= 1 ==> response == BodyAt(replies, |sent| - 1))
    && (tryAgain <==> |sent| == 0 || TokenExpired(response))
    && (|sent| == 2 ==> TokenExpired(BodyAt(replies, 0)))
    && sent == WriteCalls(verb, url, payload, first, issued, |sent|)
    && token == TokenAfter(first, issued, WriteExpiries(replies, |sent|))
    && minted == issued + WriteExpiries(replies, |sent|)
  }

  /** What a finished write has done: WriteAttempts calls, the last reply returned, one refresh per expiry. */
  ghost predicate Written(replies: seq<Doc>, verb: Verb, url: string, payload: Doc, first: Option<Token>, issued: nat,
                          response: Doc, sent: seq<Call>, token: Option<Token>, minted: nat)
  {
    var n := WriteAttempts(replies);
    && response == BodyAt(replies, n - 1)
    && sent == WriteCalls(verb, url, payload, first, issued, n)
    && token == TokenAfter(first, issued, WriteExpiries(replies, n))
    && minted == issued + WriteExpiries(replies, n)
  }

  /**
   * What a write does for a client holding `held` after `issued` tokens: it
   * mints a token first when none is held, then the retry loop's account.
   */
  ghost predicate Sent(replies: seq<Doc>, verb: Verb, url: string, payload: Doc, held: Option<Token>, issued: nat,
                       response: Doc, sent: seq<Call>, token: Option<Token>, minted: nat)
  {
    Written(replies, verb, url, payload, if held.None? then Some(Minted(issued)) else held,
            issued + (if held.None? then 1 else 0), response, sent, token, minted)
  }

  /** One more attempt keeps the write loop's account. */
  lemma WritingStep(replies: seq<Doc>, verb: Verb, url: string, payload: Doc, first: Option<Token>, issued: nat,
                    sent: seq<Call>, i: nat, response: Doc, token: Option<Token>, minted: nat)
    requires Writing(replies, verb, url, payload, first, issued, sent, i, true, response, token, minted) && i < 2
    ensures var r, sent' := BodyAt(replies, |sent|), sent + [Call(verb, url, payload, token)];
      if TokenExpired(r)
      then Writing(replies, verb, url, payload, first, issued, sent', i + 1, true, r, Some(Minted(minted)), minted + 1)
      else Writing(replies, verb, url, payload, first, issued, sent', i, false, r, token, minted)
  {
  }

  /** When the write loop stops it has made WriteAttempts calls. */
  lemma WritingOutcome(replies: seq<Doc>, verb: Verb, url: string, payload: Doc, first: Option<Token>, issued: nat,
                       sent: seq<Call>, i: nat, tryAgain: bool, response: Doc, token: Option<Token>, minted: nat)
    requires Writing(replies, verb, url, payload, first, issued, sent, i, tryAgain, response, token, minted)
    requires !(tryAgain && i < 2)
    ensures Written(replies, verb, url, payload, first, issued, response, sent, token, minted)
  {
    assert |sent| == WriteAttempts(replies);
  }

  /**
   * What a write returns is an expired-token reply only when both attempts got
   * one; otherwise it is the first reply that did not, and every attempt
   * before it got an expired-token reply.
   */
  lemma WriteOutcome(server: seq<Doc>)
    ensures var last := BodyAt(server, WriteAttempts(server) - 1);
      && (TokenExpired(last) <==> TokenExpired(BodyAt(server, 0)) && TokenExpired(BodyAt(server, 1)))
      && (!TokenExpired(last) ==> forall i :: 0 <= i < WriteAttempts(server) - 1 ==> TokenExpired(BodyAt(server, i)))
      && WriteExpiries(server, WriteAttempts(server)) == WriteAttempts(server) - (if TokenExpired(last) then 0 else 1)
  {
  }

  // ---------------------------------------------------------------------------
  // The URL

  /**
   * The query component as parse_url finds it: the text after the first `?`
   * up to the next `#`, or none when a `#` or the end comes first.
   */
  function Query(url: string): Option<string>
    decreases |url|
  {
    if url == [] || url[0] == '#' then None
    else if url[0] == '?' then Some(Before(url[1..], '#'))
    else Query(url[1..])
  }

  /** The separator before `offset=`: `&` when the URL has a (truthy) query string, else `?`. */
  function Separator(url: string): string
  {
    var query := Query(url);
    if query.Some? && Truthy(Str(query.value)) then "&" else "?"
  }

  /** A URL without `?` has no query string, so `offset=` follows a `?`. */
  lemma {:induction false} NoQuery(url: string)
    requires '?' !in url
    ensures Query(url) == None && Separator(url) == "?"
    decreases |url|
  {
    if url != [] && url[0] != '#' {
      NoQuery(url[1..]);
    }
  }

  /**
   * With a path free of `?` and `#`, the query string is what follows the `?`;
   * `offset=` then follows a `&`, unless that query is empty or "0" (falsy in PHP).
   */
  lemma {:induction false} QueryAfterPath(path: string, q: string)
    requires '?' !in path && '#' !in path && '#' !in q
    ensures Query(path + "?" + q) == Some(q)
    ensures Separator(path + "?" + q) == (if q != "" && q != "0" then "&" else "?")
    decreases |path|
  {
    var url := path + "?" + q;
    if path == [] {
      assert url[0] == '?' && url[1..] == q;
      BeforeOfPlain(q, '#');
    } else {
      assert url[0] == path[0] && url[1..] == path[1..] + "?" + q;
      QueryAfterPath(path[1..], q);
    }
  }

  /** `offset=` appended, after the separator, unless the URL already holds it. */
  function WithOffsetParameter(url: string): string
  {
    AddOffset(url, Separator(url))
  }

  function AddOffset(url: string, sep: string): string
  {
    if Contains(url, "offset=") then url else url + sep + "offset="
  }

  /** The URL always carries `offset=` afterwards and extends the original; when it was added it ends the URL. */
  lemma OffsetParameterAdded(url: string)
    ensures Contains(WithOffsetParameter(url), "offset=")
    ensures WithOffsetParameter(url)[..|url|] == url
    ensures !Contains(url, "offset=") ==> WithOffsetParameter(url)[|url| + 1..] == "offset="
  {
    AddOffsetSpec(url, Separator(url));
  }

  lemma AddOffsetSpec(url: string, sep: string)
    requires |sep| == 1
    ensures Contains(AddOffset(url, sep), "offset=")
    ensures AddOffset(url, sep)[..|url|] == url
    ensures !Contains(url, "offset=") ==> AddOffset(url, sep)[|url| + 1..] == "offset="
  {
    if !Contains(url, "offset=") {
      EndsWithParameter(url, sep);
    }
  }

  /** Fixing the URL a second time changes nothing. */
  lemma OffsetParameterIdempotent(url: string)
    ensures WithOffsetParameter(WithOffsetParameter(url)) == WithOffsetParameter(url)
  {
    OffsetParameterAdded(url);
  }

  /** Appending a one-character separator and `offset=` leaves the text with `offset=` at its end. */
  lemma EndsWithParameter(url: string, prefix: string)
    requires |prefix| == 1
    ensures (url + prefix + "offset=")[..|url|] == url
    ensures (url + prefix + "offset=")[|url| + 1..] == "offset="
    ensures Contains(url + prefix + "offset=", "offset=")
  {
    var r := url + prefix + "offset=";
    assert r[|url| + 1..] == "offset=";
    assert OccursAt(r, "offset=", |url| + 1);
    ContainsWitness(r, "offset=", |url| + 1);
  }

  // ---------------------------------------------------------------------------
  // The client

  /** The API-call counter kept by the sync log. */
  class SyncLog {
    var apiCalls: nat

    constructor ()
      ensures apiCalls == 0
    {
      apiCalls := 0;
    }

    method IncrementCount(n: nat)
      modifies this
      ensures apiCalls == old(apiCalls) + n
    {
      apiCalls := apiCalls + n;
    }
  }

  class Client {
    const server: string
    const tokenUrl: string
    const clientId: string
    const clientSecret: string
    var profile: string
    /** The most API calls one paging loop makes. */
    const maxRequests: nat := 50
    const log: SyncLog
    /** `$this->token`; None while it was never set. */
    var token: Option<Token>
    /** How many tokens the credential exchange has issued to this client. */
    var minted: nat

    constructor (server: string, tokenUrl: string, clientId: string, clientSecret: string, defaultProfile: string, log: SyncLog)
      ensures this.server == server && this.tokenUrl == tokenUrl && this.profile == defaultProfile
      ensures this.clientId == clientId && this.clientSecret == clientSecret
      ensures this.log == log && token == None && minted == 0
    {
      this.server := server;
      this.tokenUrl := tokenUrl;
      this.clientId := clientId;
      this.clientSecret := clientSecret;
      this.profile := defaultProfile;
      this.log := log;
      token := None;
      minted := 0;
    }

    /** Replace the token by a newly issued one. */
    method GenerateToken()
      modifies this
      ensures token == Some(Minted(old(minted))) && minted == old(minted) + 1
      ensures profile == old(profile)
    {
      token := Some(Minted(minted));
      minted := minted + 1;
    }

    /**
     * One pass of the paging loop: GET at the pass's offset with the current
     * token; after an expired-token reply mint a new token and ask for another
     * pass, otherwise merge the reply, advance the offset, count the request
     * and decide whether to go on.
     */
    method FetchPage(base: string, replies: seq<Reply>, k: nat, p: Pass,
                     ghost sent: seq<Request>, ghost token0: Option<Token>, ghost minted0: nat)
      returns (next: Pass, request: Request)
      requires Paged(replies, maxRequests, base, token0, minted0, k, p, sent, token, minted) && Continues(p)
      modifies this
      ensures request == Request(base, p.offset, old(token))
      ensures next == Step(p, ReplyAt(replies, k), maxRequests)
      ensures Paged(replies, maxRequests, base, token0, minted0, k + 1, next, sent + [request], token, minted)
      ensures profile == old(profile)
    {
      request := Request(base, p.offset, token);
      var response := ReplyAt(replies, k);
      if TokenExpired(response.body) {
        GenerateToken();
        next := p.(tryAgain := true, tokenAttempts := p.tokenAttempts + 1);
      } else {
        // merge the reply into the results: its records, or itself when it is no error
        var responseCount := RecordCount(response.body);
        var results := p.results + Contribution(response.body);
        var offset := p.offset + responseCount;
        var requestCount := p.requestCount + 1;
        var keepGoing := requestCount < maxRequests && (responseCount >= PageSize || response.length > LargeBody);
        next := Pass(results, offset, requestCount, p.tokenAttempts, keepGoing, false);
      }
      PagedStep(replies, maxRequests, base, token0, minted0, k, p, sent, old(token), old(minted));
    }

    /**
     * GET every page: make sure the URL carries an `offset=` parameter, then
     * page through the collection from offset 0.
     */
    method Get(url: string, replies: seq<Reply>) returns (results: seq<Doc>, offset: nat, sent: seq<Request>)
      modifies this, log
      ensures |sent| >= 1
      ensures var rs := Replies(replies, |sent|);
        && results == Merged(rs)
        && offset == RecordsFetched(rs)
        && ServedCount(rs) <= maxRequests
        && !TokenExpired(rs[|rs| - 1].body)
        && (ServedCount(rs) == maxRequests || !LooksFull(rs[|rs| - 1]))
        && EarlierPagesFull(rs)
        && sent == Requests(replies, |sent|, maxRequests, WithOffsetParameter(url), old(token), old(minted))
        && token == TokenAfter(old(token), old(minted), ExpiredCount(rs))
        && minted == old(minted) + ExpiredCount(rs)
        && log.apiCalls == old(log.apiCalls) + |rs|
      ensures Fetched(replies, maxRequests, url, old(token), old(minted), results, sent, token, minted)
      ensures profile == old(profile)
    {
      var base := WithOffsetParameter(url);
      results, offset, sent := Collect(base, replies);
    }

    /**
     * The paging loop of GET: request at the current offset, re-request at the
     * same offset with a fresh token after an expired-token reply, otherwise
     * merge the reply and advance the offset by its record count; stop after a
     * page that does not look full, or after 50 counted requests. The requests
     * issued and the final offset are returned beside the results.
     */
    method Collect(base: string, replies: seq<Reply>) returns (results: seq<Doc>, offset: nat, sent: seq<Request>)
      modifies this, log
      ensures Collected(replies, maxRequests, base, old(token), old(minted), results, offset, sent, token, minted)
      ensures log.apiCalls == old(log.apiCalls) + |sent|
      ensures profile == old(profile)
    {
      var p := Start;
      sent := [];
      var k: nat := 0;
      ghost var token0, minted0, calls0 := token, minted, log.apiCalls;
      // a do-while loop: `keepGoing` starts true, so the first pass always runs
      while p.keepGoing || (p.tryAgain && p.requestCount < 2)
        invariant Paged(replies, maxRequests, base, token0, minted0, k, p, sent, token, minted)
        invariant log.apiCalls == calls0 && profile == old(profile)
        decreases |replies| + 1 - k
      {
        var request;
        p, request := FetchPage(base, replies, k, p, sent, token0, minted0);
        sent := sent + [request];
        k := k + 1;
      }
      PagedOutcome(replies, maxRequests, base, token0, minted0, k, p, sent, token, minted);
      results, offset := p.results, p.offset;
      log.IncrementCount(p.requestCount + p.tokenAttempts);
    }

    /**
     * POST, PUT or DELETE: mint a token first when none is set, then call once,
     * and once more with a fresh token after an expired-token reply. The last
     * reply is returned (it can still be an expired-token reply), the calls
     * made beside it, and one API call is logged whatever the attempts.
     */
    method Send(verb: Verb, url: string, payload: Doc, replies: seq<Doc>) returns (response: Doc, sent: seq<Call>)
      modifies this, log
      ensures Sent(replies, verb, url, payload, old(token), old(minted), response, sent, token, minted)
      ensures log.apiCalls == old(log.apiCalls) + 1
      ensures profile == old(profile)
    {
      if token.None? {
        GenerateToken();
      }
      response, sent := Attempts(verb, url, payload, replies);
      log.IncrementCount(1);
    }

    /** The retry loop of a write: at most two attempts, the second only after an expired-token reply. */
    method Attempts(verb: Verb, url: string, payload: Doc, replies: seq<Doc>) returns (response: Doc, sent: seq<Call>)
      requires token.Some?
      modifies this
      ensures Written(replies, verb, url, payload, old(token), old(minted), response, sent, token, minted)
      ensures profile == old(profile)
    {
      ghost var first, issued := token, minted;
      var i := 0;
      var tryAgain := true;
      response := Null;
      sent := [];
      // a do-while loop: `tryAgain` starts true, so the first pass always runs
      while tryAgain && i < 2
        invariant Writing(replies, verb, url, payload, first, issued, sent, i, tryAgain, response, token, minted)
        invariant profile == old(profile)
        decreases 2 - |sent|
      {
        WritingStep(replies, verb, url, payload, first, issued, sent, i, response, token, minted);
        sent := sent + [Call(verb, url, payload, token)];
        response := BodyAt(replies, |sent| - 1);
        if TokenExpired(response) {
          GenerateToken();
          i := i + 1;
        } else {
          tryAgain := false;
        }
      }
      WritingOutcome(replies, verb, url, payload, first, issued, sent, i, tryAgain, response, token, minted);
    }

    /** `$this->profile = $profileId`. */
    method SetProfile(profileId: string)
      modifies this
      ensures profile == profileId && token == old(token) && minted == old(minted)
    {
      profile := profileId;
    }

    /** The URL of a list's options in the current profile. */
    function OptionsUrl(listId: string): string
      reads this
    {
      "https://" + server + ".iformbuilder.com/exzact/api/v60/profiles/" + profile + "/optionlists/" + listId + "/options"
    }

    /**
     * getOptions: every option of the list with the requested fields, paged
     * with GET on the list's options URL; false (None), with no call made,
     * without a truthy list id and field list.
     */
    method GetOptions(listId: string, fields: string, replies: seq<Reply>) returns (items: Option<seq<Doc>>, ghost sent: seq<Request>)
      modifies this, log
      ensures items.Some? <==> Truthy(Str(listId)) && Truthy(Str(fields))
      ensures items.None? ==> sent == [] && token == old(token) && minted == old(minted) && log.apiCalls == old(log.apiCalls)
      ensures items.Some? ==>
        && Fetched(replies, maxRequests, old(OptionsUrl(listId)) + "?fields=" + fields, old(token), old(minted), items.value, sent, token, minted)
        && log.apiCalls == old(log.apiCalls) + |sent|
      ensures profile == old(profile)
    {
      if Truthy(Str(listId)) && Truthy(Str(fields)) {
        var url := OptionsUrl(listId) + "?fields=" + fields;
        var results, offset;
        results, offset, sent := Get(url, replies);
        items := Some(results);
      } else {
        items, sent := None, [];
      }
    }

    /**
     * getOptionsAsKeyValueArray: the key_value → label map of the options
     * fetched from the list; empty, with no call made, without a list id.
     */
    method GetOptionsAsKeyValueArray(listId: string, replies: seq<Reply>)
      returns (kv: map<string, Doc>, ghost items: seq<Doc>, ghost sent: seq<Request>)
      modifies this, log
      ensures kv == Assoc(OptionPairs(items))
      ensures Truthy(Str(listId)) ==>
        && Fetched(replies, maxRequests, old(OptionsUrl(listId)) + "?fields=" + "id,key_value,label", old(token), old(minted), items, sent, token, minted)
        && log.apiCalls == old(log.apiCalls) + |sent|
      ensures !Truthy(Str(listId)) ==>
        && items == [] && kv == map[] && sent == []
        && token == old(token) && minted == old(minted) && log.apiCalls == old(log.apiCalls)
      ensures profile == old(profile)
    {
      var fetched;
      fetched, sent := GetOptions(listId, "id,key_value,label", replies);
      kv, items := map[], [];
      // a collection is truthy even when empty, so only `false` skips the loop
      if fetched.Some? {
        var list := fetched.value;
        items := list;
        kv := KeyValueMap(list);
      }
    }

    /**
     * The second half of sortOptionList: sort the fetched options, move the
     * first `Other` to the top, number the ids from 0 and PUT them.
     */
    method PutSorted(url: string, list: seq<Doc>, sortBy: string, writes: seq<Doc>) returns (response: Doc, calls: seq<Call>)
      modifies this, log
      ensures Sent(writes, Put, url, List(SortPayload(list, sortBy)), old(token), old(minted), response, calls, token, minted)
      ensures log.apiCalls == old(log.apiCalls) + 1
      ensures profile == old(profile)
    {
      var arranged := Arrange(SortBy(list, sortBy));
      var payload := Payload(arranged);
      assert payload == SortPayload(list, sortBy);
      response, calls := Send(Put, url, List(payload), writes);
    }

    /**
     * sortOptionList: fetch the list's options, sort them case-insensitively
     * by `sortBy`, move the first one labelled `Other` to the top, and PUT the
     * ids back numbered from 0; the reply to the PUT is returned. The PUT goes
     * out with the token the GET left, and the log counts the GET's calls and
     * one for the PUT. Nothing is sent without a truthy list id.
     */
    method SortOptionList(listId: string, sortBy: string, pages: seq<Reply>, writes: seq<Doc>)
      returns (result: Option<Doc>, ghost items: seq<Doc>, ghost fetch: seq<Request>,
               ghost held: Option<Token>, ghost issued: nat, ghost calls: seq<Call>)
      modifies this, log
      ensures result.Some? <==> Truthy(Str(listId))
      ensures result.None? ==>
        && fetch == [] && calls == []
        && token == old(token) && minted == old(minted) && log.apiCalls == old(log.apiCalls)
      ensures result.Some? ==>
        && held == TokenAfter(old(token), old(minted), ExpiredCount(Replies(pages, |fetch|)))
        && issued == old(minted) + ExpiredCount(Replies(pages, |fetch|))
      ensures result.Some? ==>
        Fetched(pages, maxRequests, old(OptionsUrl(listId)) + "?fields=" + "id,label,key_value,sort_order", old(token), old(minted),
                items, fetch, held, issued)
      ensures result.Some? ==>
        Sent(writes, Put, old(OptionsUrl(listId)), List(SortPayload(items, sortBy)), held, issued, result.value, calls, token, minted)
      ensures result.Some? ==> log.apiCalls == old(log.apiCalls) + |fetch| + 1
      ensures profile == old(profile)
    {
      if !Truthy(Str(listId)) {
        return None, [], [], None, 0, [];
      }
      var url := OptionsUrl(listId);
      var fetched;
      fetched, fetch := GetOptions(listId, "id,label,key_value,sort_order", pages);
      var list := fetched.value;
      items := list;
      FetchedToken(pages, maxRequests, url + "?fields=" + "id,label,key_value,sort_order", old(token), old(minted), items, fetch, token, minted);
      held, issued := token, minted;
      var response;
      response, calls := PutSorted(url, list, sortBy, writes);
      result := Some(response);
    }
  }
}
