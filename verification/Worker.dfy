/** One memoryless worker serving many scans of both kinds at once. A client may present any token it
    was ever given, in any order and any number of times. */
module Worker {
  import opened GoStrings
  import opened Scans
  import opened Tokens
  import opened Runs

  /** What one HTTP response carries: after Finish there is nothing to resume. */
  datatype Reply = Reply(response: Response, next: Option<Token>)

  /** One exchange. All the worker has is the token; None stands for a token it cannot have issued. */
  ghost function Exchange(token: Token): Option<Reply> {
    match DecodeToken(token)
    case None => None
    case Some(st) =>
      if !IsResumable(st) then None else
        var (live, response) := Tick(st);
        TickKeepsGoState(st);
        Some(Reply(response, if response.Emit? then Some(EncodeToken(live)) else None))
  }

  /** A token handed out, with the scan and the page it belongs to. */
  datatype Issued = Issued(scan: nat, page: nat, token: Token)

  /** A response given, and which of the issued tokens asked for it. */
  datatype Answer = Answer(request: nat, response: Response)

  /** Everything that has happened; the worker itself keeps none of it. */
  datatype History = History(scans: seq<ScanState>, issued: seq<Issued>, answers: seq<Answer>)

  datatype Event = Open(start: ScanState) | Present(request: nat)

  ghost function Next(h: History, e: Event): History {
    match e
    case Open(start) =>
      if IsResumable(start) && start.offset == 0 then
        h.(scans := h.scans + [start], issued := h.issued + [Issued(|h.scans|, 0, EncodeToken(start))])
      else h
    case Present(request) =>
      if request >= |h.issued| then h
      else
        var from := h.issued[request];
        match Exchange(from.token)
        case None => h
        case Some(reply) =>
          h.(answers := h.answers + [Answer(request, reply.response)],
             issued := h.issued + (match reply.next
                                   case Some(token) => [Issued(from.scan, from.page + 1, token)]
                                   case None => []))
  }

  ghost function Replay(events: seq<Event>): History {
    if events == [] then History([], [], []) else Next(Replay(events[..|events| - 1]), events[|events| - 1])
  }

  /** Every token is the state of its scan after its page, and every answer is that page. */
  ghost predicate Inv(h: History) {
    && (forall s <- h.scans :: IsResumable(s) && s.offset == 0)
    && (forall i | 0 <= i < |h.issued| :: IsPageToken(h, h.issued[i]))
    && (forall a <- h.answers :: a.request < |h.issued| && IsPageAnswer(h, h.issued[a.request], a.response))
  }

  ghost predicate IsPageToken(h: History, x: Issued) {
    && x.scan < |h.scans| && IsResumable(h.scans[x.scan])
    && DecodeToken(x.token) == Some(After(h.scans[x.scan], x.page))
  }

  ghost predicate IsPageAnswer(h: History, x: Issued, r: Response) {
    x.scan < |h.scans| && InRange(h.scans[x.scan]) && r == Page(h.scans[x.scan], x.page)
  }

  lemma AfterIsResumable(st: ScanState, k: nat)
    requires IsResumable(st)
    ensures IsResumable(After(st, k))
  {
    MovedKeepsGoState(st, After(st, k).offset);
  }

  /** Presenting page k's token answers page k and hands out page k + 1's token. */
  lemma ExchangeTurnsPage(st: ScanState, k: nat, token: Token)
    requires IsResumable(st) && DecodeToken(token) == Some(After(st, k))
    ensures Exchange(token).Some? && Exchange(token).value.response == Page(st, k)
    ensures match Exchange(token).value.next
      case Some(t) => Page(st, k).Emit? && DecodeToken(t) == Some(After(st, k + 1))
      case None => Page(st, k).Finish?
  {
    var at := After(st, k);
    AfterIsResumable(st, k);
    TickKeepsGoState(at);
    TokenInverse(Tick(at).0);
    if Page(st, k).Emit? {
      assert Tick(at).0 == After(st, k + 1);
    }
  }

  lemma InvOpen(h: History, start: ScanState)
    requires Inv(h)
    ensures Inv(Next(h, Open(start)))
  {
    if IsResumable(start) && start.offset == 0 {
      TokenInverse(start);
      assert After(start, 0) == start;
    }
  }

  lemma InvPresent(h: History, request: nat)
    requires Inv(h) && request < |h.issued|
    ensures var from := h.issued[request]; var h' := Next(h, Present(request));
      && from.scan < |h.scans| && InRange(h.scans[from.scan])
      && h'.answers == h.answers + [Answer(request, Page(h.scans[from.scan], from.page))]
      && Inv(h')
  {
    var from := h.issued[request];
    assert IsPageToken(h, from);
    ExchangeTurnsPage(h.scans[from.scan], from.page, from.token);
    var h' := Next(h, Present(request));
    forall i | 0 <= i < |h'.issued|
      ensures IsPageToken(h', h'.issued[i])
    {
      if i < |h.issued| {
        assert h'.issued[i] == h.issued[i] && IsPageToken(h, h.issued[i]);
      }
    }
  }

  lemma InvNext(h: History, e: Event)
    requires Inv(h)
    ensures Inv(Next(h, e))
  {
    match e
    case Open(start) => InvOpen(h, start);
    case Present(request) =>
      if request < |h.issued| {
        InvPresent(h, request);
      }
  }

  /** For every sequence of events: each token handed out for an n-row scan decodes to its rows with
      offset min(256 k, n), and each answer is the page its token stands for, whatever else the worker
      was asked before and however often that token was presented. */
  lemma {:induction false} AnyInterleaving(events: seq<Event>)
    ensures Inv(Replay(events))
  {
    if events != [] {
      AnyInterleaving(events[..|events| - 1]);
      InvNext(Replay(events[..|events| - 1]), events[|events| - 1]);
    }
  }

  /** No token ever goes stale: presenting any of them, for the first time or again, is answered with
      the page it stands for. */
  lemma EveryTokenAnswered(events: seq<Event>, request: nat)
    requires request < |Replay(events).issued|
    ensures var h := Replay(events); var x := h.issued[request];
      && x.scan < |h.scans| && InRange(h.scans[x.scan])
      && Replay(events + [Present(request)]).answers == h.answers + [Answer(request, Page(h.scans[x.scan], x.page))]
  {
    AnyInterleaving(events);
    InvPresent(Replay(events), request);
    assert (events + [Present(request)])[..|events|] == events;
  }

  /** Opening a scan hands out its first token, which stands for the whole scan. */
  lemma ScanOpens(events: seq<Event>, start: ScanState)
    requires IsResumable(start) && start.offset == 0
    ensures var h, h' := Replay(events), Replay(events + [Open(start)]);
      && h'.scans == h.scans + [start] && h'.answers == h.answers
      && |h'.issued| == |h.issued| + 1 && h'.issued[..|h.issued|] == h.issued
      && var x := h'.issued[|h.issued|];
         x.scan == |h.scans| && x.page == 0 && DecodeToken(x.token) == Some(start)
  {
    TokenInverse(start);
    assert (events + [Open(start)])[..|events|] == events;
  }

  /** Presenting a token hands out one more: as long as its page holds rows, the token of the page behind
      it, and after Finish none. */
  lemma TokensGoOn(events: seq<Event>, request: nat)
    requires request < |Replay(events).issued|
    ensures var h, h' := Replay(events), Replay(events + [Present(request)]); var x := h.issued[request];
      && x.scan < |h.scans| && InRange(h.scans[x.scan]) && h'.scans == h.scans
      && if 256 * x.page >= Size(h.scans[x.scan]) then h'.issued == h.issued
         else
           && |h'.issued| == |h.issued| + 1 && h'.issued[..|h.issued|] == h.issued
           && h'.issued[|h.issued|].scan == x.scan && h'.issued[|h.issued|].page == x.page + 1
  {
    AnyInterleaving(events);
    assert Replay(events).issued[request].scan < |Replay(events).scans|;
    PresentIssues(Replay(events), request);
    assert (events + [Present(request)])[..|events|] == events;
  }

  lemma PresentIssues(h: History, request: nat)
    requires Inv(h) && request < |h.issued|
    ensures var h' := Next(h, Present(request)); var x := h.issued[request];
      && x.scan < |h.scans| && InRange(h.scans[x.scan]) && h'.scans == h.scans
      && if 256 * x.page >= Size(h.scans[x.scan]) then h'.issued == h.issued
         else
           && |h'.issued| == |h.issued| + 1 && h'.issued[..|h.issued|] == h.issued
           && h'.issued[|h.issued|].scan == x.scan && h'.issued[|h.issued|].page == x.page + 1
  {
    var x := h.issued[request];
    assert IsPageToken(h, x);
    assert h.scans[x.scan] in h.scans;
    ExchangeTurnsPage(h.scans[x.scan], x.page, x.token);
    PageHoldsRows(h.scans[x.scan], x.page);
  }

  lemma PageHoldsRows(st: ScanState, k: nat)
    requires InRange(st) && st.offset == 0
    ensures Page(st, k).Emit? <==> 256 * k < Size(st)
  {
  }

  /** In any two histories, the same token gets the same answer. */
  lemma SameTokenSameAnswer(events: seq<Event>, others: seq<Event>, a: Answer, b: Answer)
    requires var h, g := Replay(events), Replay(others);
      && a in h.answers && a.request < |h.issued| && b in g.answers && b.request < |g.issued|
      && h.issued[a.request].token == g.issued[b.request].token
    ensures a.response == b.response
  {
    AnyInterleaving(events);
    AnyInterleaving(others);
    var h, g := Replay(events), Replay(others);
    assert IsPageToken(h, h.issued[a.request]) && IsPageAnswer(h, h.issued[a.request], a.response);
    assert IsPageToken(g, g.issued[b.request]) && IsPageAnswer(g, g.issued[b.request], b.response);
  }

  /** The responses a client gets by going on with the token of each reply, for up to k exchanges. */
  ghost function Follow(next: Option<Token>, k: nat): seq<Response>
    decreases k
  {
    if k == 0 || next.None? then []
    else match Exchange(next.value)
      case None => []
      case Some(reply) => [reply.response] + Follow(reply.next, k - 1)
  }

  /** A client that resumes with a token it was given. */
  ghost function Session(token: Token, k: nat): seq<Response> {
    Follow(Some(token), k)
  }

  /** Presenting the token of a state gives that state's tick and the token of the state after it. */
  lemma ExchangeTicks(at: ScanState, token: Token) returns (after: ScanState, next: Option<Token>)
    requires IsResumable(at) && DecodeToken(token) == Some(at)
    ensures IsResumable(after) && Tick(at).0 == after
    ensures Exchange(token) == Some(Reply(Tick(at).1, next))
    ensures match next
      case Some(t) => Tick(at).1.Emit? && DecodeToken(t) == Some(after)
      case None => Tick(at).1.Finish?
  {
    TickKeepsGoState(at);
    TokenInverse(Tick(at).0);
    after, next := Tick(at).0, Exchange(token).value.next;
  }

  /** A session is one tick, and then the session of the next token if there is one. */
  lemma SessionTick(at: ScanState, token: Token, k: nat) returns (after: ScanState, next: Option<Token>)
    requires IsResumable(at) && DecodeToken(token) == Some(at) && k > 0
    ensures IsResumable(after) && Tick(at).0 == after
    ensures match next
      case Some(t) =>
        && Tick(at).1.Emit? && DecodeToken(t) == Some(after)
        && Session(token, k) == [Tick(at).1] + Session(t, k - 1)
      case None => Tick(at).1.Finish? && Session(token, k) == [Tick(at).1]
  {
    after, next := ExchangeTicks(at, token);
    assert Follow(None, k - 1) == [];
  }

  /** How many ticks a session takes: it stops at Finish or after k. */
  function SessionTicks(at: ScanState, k: nat): nat
    requires InRange(at)
  {
    Min(k, EmittingTicks(Size(at) - at.offset) + 1)
  }

  /** The session with a scan in memory. */
  function MemSession(at: ScanState, k: nat): seq<Response>
    requires InRange(at)
  {
    MemRun(at, SessionTicks(at, k))
  }

  lemma MemSessionTick(at: ScanState, after: ScanState, k: nat)
    requires InRange(at) && Tick(at).0 == after && InRange(after) && k > 0
    ensures MemSession(at, k) == if Tick(at).1.Emit? then [Tick(at).1] + MemSession(after, k - 1) else [Tick(at).1]
  {
    OneTickLess(at, k);
    MemRunStep(at, SessionTicks(at, k));
  }

  lemma OneTickLess(at: ScanState, k: nat)
    requires InRange(at) && k > 0
    ensures InRange(Tick(at).0)
    ensures SessionTicks(at, k) == if Tick(at).1.Emit? then SessionTicks(Tick(at).0, k - 1) + 1 else 1
  {
  }

  /** Going on with tokens gives the responses of the scan in memory. */
  lemma {:induction false} SessionIsRun(at: ScanState, token: Token, k: nat)
    requires IsResumable(at) && DecodeToken(token) == Some(at)
    ensures Session(token, k) == MemSession(at, k)
    decreases k
  {
    if k > 0 {
      var after, next := SessionTick(at, token, k);
      MemSessionTick(at, after, k);
      if next.Some? {
        SessionIsRun(after, next.value, k - 1);
      }
    }
  }

  /** What a client makes of its responses: all rows, once the scan has finished. */
  ghost function Outcome(responses: seq<Response>): Option<seq<Row>> {
    if IsReadable(responses) && responses != [] && responses[|responses| - 1] == Finish
    then Some(Delivered(responses)) else None
  }

  lemma OutcomeOf(responses: seq<Response>)
    requires IsReadable(responses) && responses != [] && responses[|responses| - 1] == Finish
    ensures Outcome(responses) == Some(Delivered(responses))
  {
  }

  lemma MemSessionOutcome(at: ScanState, k: nat)
    requires InRange(at) && k > EmittingTicks(Size(at) - at.offset)
    ensures Outcome(MemSession(at, k)) == Some(RowsOf(at)[at.offset..])
  {
    RunDeliversAll(at, SessionTicks(at, k));
    LastFinishes(at, SessionTicks(at, k));
    OutcomeOf(MemSession(at, k));
  }

  /** A session that starts with the token of a state delivers its rows from there on, and then the
      scan ends. */
  lemma SessionDelivers(at: ScanState, token: Token, k: nat)
    requires IsResumable(at) && DecodeToken(token) == Some(at)
    requires k > EmittingTicks(Size(at) - at.offset)
    ensures Outcome(Session(token, k)) == Some(RowsOf(at)[at.offset..])
  {
    SessionIsRun(at, token, k);
    MemSessionOutcome(at, k);
  }

  lemma AfterStart(st: ScanState, k: nat)
    requires IsResumable(st) && st.offset == 0
    ensures After(st, k).offset == Min(ROWS_PER_TICK * k, Size(st))
    ensures RowsOf(After(st, k)) == RowsOf(st) && Size(After(st, k)) == Size(st)
  {
    RowsIgnoreOffset(st, After(st, k).offset);
  }

  lemma TokenOfPage(events: seq<Event>, i: nat)
    requires i < |Replay(events).issued|
    ensures var h := Replay(events); var x := h.issued[i];
      && x.scan < |h.scans| && IsResumable(h.scans[x.scan]) && h.scans[x.scan].offset == 0
      && DecodeToken(x.token) == Some(After(h.scans[x.scan], x.page))
  {
    AnyInterleaving(events);
    var h := Replay(events);
    assert IsPageToken(h, h.issued[i]);
    assert h.scans[h.issued[i].scan] in h.scans;
  }

  /** Following the token of a page for k exchanges hands out the rows from min(256 page, n) on and
      closes the scan, if k exchanges are enough for that. */
  ghost predicate Resumes(st: ScanState, page: nat, token: Token, k: nat) {
    && InRange(st)
    && var from := if 256 * page < Size(st) then 256 * page else Size(st);
       256 * (k - 1) >= Size(st) - from ==> Outcome(Session(token, k)) == Some(RowsOf(st)[from..])
  }

  lemma ResumePage(st: ScanState, page: nat, token: Token, k: nat)
    requires IsResumable(st) && st.offset == 0 && DecodeToken(token) == Some(After(st, page))
    ensures Resumes(st, page, token, k)
  {
    AfterStart(st, page);
    AfterIsResumable(st, page);
    if k > EmittingTicks(Size(st) - After(st, page).offset) {
      SessionDelivers(After(st, page), token, k);
    }
  }

  /** Any token of any history can be followed to the end of its scan: a retry of an old one too. */
  lemma ResumeAnywhere(events: seq<Event>, i: nat, k: nat)
    requires i < |Replay(events).issued|
    ensures var h := Replay(events); var x := h.issued[i];
      x.scan < |h.scans| && Resumes(h.scans[x.scan], x.page, x.token, k)
  {
    TokenOfPage(events, i);
    var x := Replay(events).issued[i];
    ResumePage(Replay(events).scans[x.scan], x.page, x.token, k);
  }
}
