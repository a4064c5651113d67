/** The attach client's view into history it does not hold: one request in flight, notches folded meanwhile. */
module Scrollback {
  import opened Common

  type PaneId = U64

  /** Rows assumed reachable before the node has said how many there are. */
  const UNKNOWN_ROWS: U64 := 1_000

  datatype History = History(historyId: Option<U64>, totalRows: U64, viewports: set<U64>)

  datatype PendingScroll = PendingScroll(requestId: U64, target: U64)

  datatype Query = Query(paneId: PaneId, historyId: Option<U64>, offset: U64, requestId: U64)

  /** What the node answers; `found` tells a window from a refusal. */
  datatype Reply = Reply(paneId: PaneId, requestId: U64, historyId: U64, totalRows: U64, offset: U64, found: bool)

  /** `visible` is the offset of every pane that has a view, `sent` the queries written so far. */
  datatype Client = Client(
    history: map<PaneId, History>,
    desired: map<PaneId, U64>,
    pending: map<PaneId, PendingScroll>,
    visible: map<PaneId, U64>,
    nextRequestId: U64,
    sent: seq<Query>)

  const NO_HISTORY: History := History(None, 0, {})

  function SaturatingAdd(a: U64, b: U64): U64 {
    if a + b > U64_MAX then U64_MAX else a + b
  }

  function SaturatingSub(a: U64, b: U64): U64 {
    if b > a then 0 else a - b
  }

  function Offset(c: Client, pane: PaneId): U64 {
    if pane in c.visible then c.visible[pane] else 0
  }

  function WithOffset(c: Client, pane: PaneId, offset: U64): Client {
    if pane in c.visible then c.(visible := c.visible[pane := offset]) else c
  }

  function AvailableRows(c: Client, pane: PaneId): U64 {
    if pane in c.history then c.history[pane].totalRows else UNKNOWN_ROWS
  }

  /** One notch, counted from the last request or folded notch if there is one, and from the screen otherwise. */
  function NextScrollTarget(visible: U64, requested: Option<U64>, maxRows: U64, up: bool, step: U64): U64 {
    var base := if requested.Some? then requested.value else visible;
    if up then (if SaturatingAdd(base, step) < maxRows then SaturatingAdd(base, step) else maxRows)
    else SaturatingSub(base, step)
  }

  function Requested(c: Client, pane: PaneId): Option<U64> {
    if pane in c.desired then Some(c.desired[pane])
    else if pane in c.pending then Some(c.pending[pane].target)
    else None
  }

  function Cached(c: Client, pane: PaneId, offset: U64): bool {
    pane in c.history && offset in c.history[pane].viewports
  }

  function RequestScrollback(c: Client, pane: PaneId, target: U64): Client {
    var historyId := if pane in c.history then c.history[pane].historyId else None;
    c.(pending := c.pending[pane := PendingScroll(c.nextRequestId, target)],
       nextRequestId := if c.nextRequestId == U64_MAX then 1 else c.nextRequestId + 1,
       sent := c.sent + [Query(pane, historyId, target, c.nextRequestId)])
  }

  function ScrollToward(c: Client, pane: PaneId, up: bool, step: U64): Client {
    var target := NextScrollTarget(Offset(c, pane), Requested(c, pane), AvailableRows(c, pane), up, step);
    if target == 0 || Cached(c, pane, target) then
      var moved := WithOffset(c.(desired := c.desired - {pane}, pending := c.pending - {pane}), pane, target);
      if target == 0 then moved.(history := moved.history - {pane}) else moved
    else if pane in c.pending then c.(desired := c.desired[pane := target])
    else RequestScrollback(c.(desired := c.desired - {pane}), pane, target)
  }

  predicate Matches(c: Client, r: Reply) {
    r.paneId in c.pending && c.pending[r.paneId].requestId == r.requestId
  }

  function AbandonHistory(c: Client, pane: PaneId): Client {
    WithOffset(c.(desired := c.desired - {pane}, history := c.history - {pane}), pane, 0)
  }

  /** A cache of another session of history is dropped before the window goes in. */
  function Installed(c: Client, r: Reply): History {
    var known := if r.paneId in c.history then c.history[r.paneId] else NO_HISTORY;
    var kept := if known.historyId.Some? && known.historyId.value != r.historyId then NO_HISTORY else known;
    History(Some(r.historyId), r.totalRows, kept.viewports + {r.offset})
  }

  function Clamp(offset: U64, rows: U64): U64 {
    if offset < rows then offset else rows
  }

  /** The window is in, and the pane stands where the request in flight asked it to. */
  function Shown(c: Client, r: Reply): Client
    requires Matches(c, r)
  {
    var claimed := c.(pending := c.pending - {r.paneId});
    WithOffset(claimed.(history := claimed.history[r.paneId := Installed(claimed, r)]),
               r.paneId, Clamp(c.pending[r.paneId].target, r.totalRows))
  }

  /** Notches folded meanwhile are settled, by one request at most. */
  function Settled(c: Client, r: Reply): Client {
    if r.paneId !in c.desired then c
    else
      var further := Clamp(c.desired[r.paneId], r.totalRows);
      var settled := c.(desired := c.desired - {r.paneId});
      if Cached(settled, r.paneId, further) then WithOffset(settled, r.paneId, further)
      else RequestScrollback(settled, r.paneId, further)
  }

  function OnWindow(c: Client, r: Reply): Client {
    if !Matches(c, r) then c
    else if !r.found then AbandonHistory(c.(pending := c.pending - {r.paneId}), r.paneId)
    else Settled(Shown(c, r), r)
  }

  /** Input to a pane ends its scrolling at the live edge. */
  function OnInput(c: Client, pane: PaneId): Client {
    var forgotten := c.(history := c.history - {pane}, pending := c.pending - {pane}, desired := c.desired - {pane});
    WithOffset(forgotten, pane, 0)
  }

  function OnResize(c: Client): Client {
    c.(history := map[], pending := map[], desired := map[], visible := map pane | pane in c.visible :: 0)
  }

  // ---------------------------------------------------------------------------
  // The position the user has asked for
  // ---------------------------------------------------------------------------

  /** Where the wheel has got to, whatever is on screen yet. */
  function Effective(c: Client, pane: PaneId): U64 {
    if pane in c.desired then c.desired[pane]
    else if pane in c.pending then c.pending[pane].target
    else Offset(c, pane)
  }

  function Stepped(position: U64, rows: U64, up: bool, step: U64): U64 {
    if up then Min(position + step, rows) else Max(position - step, 0)
  }

  /** Folded notches only ever wait for a request that is out. */
  ghost predicate WellKept(c: Client) {
    && c.desired.Keys <= c.pending.Keys <= c.visible.Keys
  }

  ghost predicate SameElsewhere(c: Client, d: Client, pane: PaneId) {
    forall p :: p != pane ==>
      && Effective(d, p) == Effective(c, p) && Offset(d, p) == Offset(c, p)
      && (p in d.pending <==> p in c.pending) && (p in d.desired <==> p in c.desired)
      && (p in c.pending ==> d.pending[p] == c.pending[p])
  }

  /** Every notch counts once: the position asked for moves by exactly one clamped step. */
  lemma NotchMovesOneStep(c: Client, pane: PaneId, up: bool, step: U64)
    requires WellKept(c) && pane in c.visible
    ensures Effective(ScrollToward(c, pane, up, step), pane)
            == Stepped(Effective(c, pane), AvailableRows(c, pane), up, step)
    ensures WellKept(ScrollToward(c, pane, up, step))
  {
    var target := NextScrollTarget(Offset(c, pane), Requested(c, pane), AvailableRows(c, pane), up, step);
    assert target == Stepped(Effective(c, pane), AvailableRows(c, pane), up, step);
  }

  /** The rows of this position are here: the live edge, or a viewport in the cache. */
  predicate AtHand(c: Client, pane: PaneId, position: U64) {
    position == 0 || (pane in c.history && position in c.history[pane].viewports)
  }

  /** The pane shows this position and waits for nothing. */
  predicate Rests(d: Client, pane: PaneId, position: U64) {
    pane !in d.pending && pane !in d.desired && Offset(d, pane) == position
  }

  /** The pane shows what it showed, and one query for the position is out. */
  predicate Asks(c: Client, d: Client, pane: PaneId, position: U64) {
    && pane !in d.desired && Offset(d, pane) == Offset(c, pane)
    && pane in d.pending && d.pending[pane] == PendingScroll(c.nextRequestId, position)
    && |d.sent| == |c.sent| + 1 && d.sent[|c.sent|].offset == position
  }

  /**
   * What a notch does: rows at hand are shown at once and whatever was under way is dropped; others are asked for
   * when nothing is under way, and remembered without asking when something is. The live edge ends the history.
   */
  lemma NotchExactly(c: Client, pane: PaneId, up: bool, step: U64)
    requires WellKept(c) && pane in c.visible
    ensures var (d, position) := (ScrollToward(c, pane, up, step),
                                  Stepped(Effective(c, pane), AvailableRows(c, pane), up, step));
            && (if AtHand(c, pane, position) then Rests(d, pane, position) && d.sent == c.sent
                else if pane in c.pending then d == c.(desired := c.desired[pane := position])
                else Asks(c, d, pane, position))
            && d.history == if position == 0 then c.history - {pane} else c.history
  {
    var target := NextScrollTarget(Offset(c, pane), Requested(c, pane), AvailableRows(c, pane), up, step);
    assert target == Stepped(Effective(c, pane), AvailableRows(c, pane), up, step);
  }

  /** And on its pane only. */
  lemma NotchStaysOnItsPane(c: Client, pane: PaneId, up: bool, step: U64)
    requires WellKept(c)
    ensures SameElsewhere(c, ScrollToward(c, pane, up, step), pane)
  {
  }

  lemma AbandonResets(c: Client, r: Reply)
    requires WellKept(c) && Matches(c, r) && !r.found
    ensures Effective(OnWindow(c, r), r.paneId) == 0
    ensures WellKept(OnWindow(c, r)) && SameElsewhere(c, OnWindow(c, r), r.paneId)
  {
  }

  lemma ShowingClamps(c: Client, r: Reply)
    requires WellKept(c) && Matches(c, r)
    ensures var d := Shown(c, r);
            && d.pending == c.pending - {r.paneId} && d.desired == c.desired && d.visible.Keys == c.visible.Keys
            && Offset(d, r.paneId) == Clamp(c.pending[r.paneId].target, r.totalRows)
            && SameElsewhere(c, d, r.paneId)
  {
  }

  /** Settling leaves the pane at the last thing asked for, clamped. */
  lemma SettlingClamps(c: Client, r: Reply)
    requires c.desired.Keys - {r.paneId} <= c.pending.Keys <= c.visible.Keys
    requires r.paneId !in c.pending && r.paneId in c.visible
    ensures var d := Settled(c, r);
            && Effective(d, r.paneId)
               == (if r.paneId in c.desired then Clamp(c.desired[r.paneId], r.totalRows) else Offset(c, r.paneId))
            && WellKept(d) && SameElsewhere(c, d, r.paneId)
  {
  }

  /** A reply to anything but the request in flight changes nothing; the right one only clamps or resets. */
  lemma ReplyOnlyClamps(c: Client, r: Reply)
    requires WellKept(c)
    ensures !Matches(c, r) ==> OnWindow(c, r) == c
    ensures Matches(c, r) ==>
              Effective(OnWindow(c, r), r.paneId)
              == if r.found then Clamp(Effective(c, r.paneId), r.totalRows) else 0
    ensures WellKept(OnWindow(c, r)) && SameElsewhere(c, OnWindow(c, r), r.paneId)
  {
    if Matches(c, r) {
      if r.found {
        ShowingClamps(c, r);
        SettlingClamps(Shown(c, r), r);
      } else {
        AbandonResets(c, r);
      }
    }
  }

  /**
   * What the right reply does: the window is shown where the request asked for it; notches folded meanwhile move
   * the pane on at once when their rows are at hand, and else cost one more query.
   */
  lemma WindowExactly(c: Client, r: Reply)
    requires WellKept(c) && Matches(c, r) && r.found
    ensures var (d, pane) := (OnWindow(c, r), r.paneId);
            var asked := Min(c.pending[pane].target, r.totalRows);
            if pane !in c.desired then Rests(d, pane, asked) && d.sent == c.sent
            else
              var further := Min(c.desired[pane], r.totalRows);
              if pane in d.history && further in d.history[pane].viewports
              then Rests(d, pane, further) && d.sent == c.sent
              else Asks(WithOffset(c, pane, asked), d, pane, further)
  {
  }

  /** Round trips still owed before a pane shows what was asked for. */
  function Debt(c: Client, pane: PaneId): nat {
    if pane !in c.pending then 0 else if pane !in c.desired then 1 else 2
  }

  lemma RepliesPayTheDebt(c: Client, r: Reply, pane: PaneId)
    requires WellKept(c)
    ensures Debt(OnWindow(c, r), pane) <= Debt(c, pane)
    ensures Matches(c, r) && r.paneId == pane ==> Debt(OnWindow(c, r), pane) < Debt(c, pane)
  {
    if r.paneId != pane {
      ReplyOnlyClamps(c, r);
    }
  }

  function OnWindows(c: Client, replies: seq<Reply>): Client
    decreases |replies|
  {
    if replies == [] then c else OnWindows(OnWindow(c, replies[0]), replies[1..])
  }

  /** How many of the replies answer the request then in flight for the pane. */
  function Matching(c: Client, replies: seq<Reply>, pane: PaneId): nat
    decreases |replies|
  {
    if replies == [] then 0
    else
      (if Matches(c, replies[0]) && replies[0].paneId == pane then 1 else 0)
      + Matching(OnWindow(c, replies[0]), replies[1..], pane)
  }

  lemma {:induction false} RepliesOnlyPay(c: Client, replies: seq<Reply>, pane: PaneId)
    requires WellKept(c)
    ensures WellKept(OnWindows(c, replies))
    ensures Debt(OnWindows(c, replies), pane) + Matching(c, replies, pane) <= Debt(c, pane)
    decreases |replies|
  {
    if replies != [] {
      ReplyOnlyClamps(c, replies[0]);
      RepliesPayTheDebt(c, replies[0], pane);
      RepliesOnlyPay(OnWindow(c, replies[0]), replies[1..], pane);
    }
  }

  /** What the replies to the pane make of a position: each matching one clamps it to its total, or resets it. */
  function Answered(c: Client, replies: seq<Reply>, pane: PaneId, at: U64): U64
    decreases |replies|
  {
    if replies == [] then at
    else
      var r := replies[0];
      var next := if !Matches(c, r) || r.paneId != pane then at else if r.found then Clamp(at, r.totalRows) else 0;
      Answered(OnWindow(c, r), replies[1..], pane, next)
  }

  lemma {:induction false} RepliesOnlyAnswer(c: Client, replies: seq<Reply>, pane: PaneId)
    requires WellKept(c)
    ensures Effective(OnWindows(c, replies), pane) == Answered(c, replies, pane, Effective(c, pane))
    decreases |replies|
  {
    if replies != [] {
      ReplyOnlyClamps(c, replies[0]);
      RepliesOnlyAnswer(OnWindow(c, replies[0]), replies[1..], pane);
    }
  }

  /** Replies that have the rows asked for leave the position alone. */
  lemma {:induction false} EnoughRowsKeepThePosition(c: Client, replies: seq<Reply>, pane: PaneId, at: U64)
    requires forall r :: r in replies && r.paneId == pane ==> r.found && at <= r.totalRows
    ensures Answered(c, replies, pane, at) == at
    decreases |replies|
  {
    if replies != [] {
      EnoughRowsKeepThePosition(OnWindow(c, replies[0]), replies[1..], pane, at);
    }
  }

  /**
   * Once the wheel rests, two answers are enough: among any replies, for any panes, at most two answer this
   * one's requests, and when none is owed any more the pane shows the position asked for before them, as far
   * as the history they reported reaches: that very position if it reaches that far.
   */
  lemma TwoRepliesSettle(c: Client, replies: seq<Reply>, pane: PaneId)
    requires WellKept(c)
    ensures Matching(c, replies, pane) <= 2
    ensures var d := OnWindows(c, replies);
            Matching(c, replies, pane) == 2 || pane !in d.pending ==>
              && pane !in d.pending
              && Offset(d, pane) == Answered(c, replies, pane, Effective(c, pane))
              && ((forall r :: r in replies && r.paneId == pane ==> r.found && Effective(c, pane) <= r.totalRows) ==>
                    Offset(d, pane) == Effective(c, pane))
  {
    RepliesOnlyPay(c, replies, pane);
    RepliesOnlyAnswer(c, replies, pane);
    if forall r :: r in replies && r.paneId == pane ==> r.found && Effective(c, pane) <= r.totalRows {
      EnoughRowsKeepThePosition(c, replies, pane, Effective(c, pane));
    }
  }

  // ---------------------------------------------------------------------------
  // Stale replies stay stale
  // ---------------------------------------------------------------------------

  datatype Act =
    | Wheel(paneId: PaneId, up: bool, step: U64)
    | Window(reply: Reply)
    | Typed(paneId: PaneId)
    | Resized

  function Perform(c: Client, act: Act): Client {
    match act
    case Wheel(pane, up, step) => ScrollToward(c, pane, up, step)
    case Window(reply) => OnWindow(c, reply)
    case Typed(pane) => OnInput(c, pane)
    case Resized => OnResize(c)
  }

  function PerformAll(c: Client, acts: seq<Act>): Client
    decreases |acts|
  {
    if acts == [] then c else PerformAll(Perform(c, acts[0]), acts[1..])
  }

  /** The wheel turns over panes that have a view. */
  predicate OverViews(c: Client, acts: seq<Act>) {
    forall act :: act in acts && act.Wheel? ==> act.paneId in c.visible
  }

  lemma ActKeepsBooks(c: Client, act: Act)
    requires WellKept(c) && OverViews(c, [act])
    ensures WellKept(Perform(c, act)) && Perform(c, act).visible.Keys == c.visible.Keys
  {
    assert act in [act];
    ActKeepsViews(c, act);
    match act
    case Wheel(pane, up, step) => NotchMovesOneStep(c, pane, up, step);
    case Window(r) => ReplyOnlyClamps(c, r);
    case _ =>
  }

  lemma ActKeepsViews(c: Client, act: Act)
    ensures Perform(c, act).visible.Keys == c.visible.Keys
  {
  }

  /** Whatever the user and the node do, folded notches only ever wait for a request that is out. */
  lemma {:induction false} RunsKeepBooks(c: Client, acts: seq<Act>)
    requires WellKept(c) && OverViews(c, acts)
    ensures WellKept(PerformAll(c, acts))
    decreases |acts|
  {
    if acts != [] {
      ActKeepsBooks(c, acts[0]);
      RunsKeepBooks(Perform(c, acts[0]), acts[1..]);
    }
  }

  /** Request ids are handed out in order and name the query they went with; 64 bits have not run out. */
  ghost predicate Numbered(c: Client) {
    && |c.sent| < U64_MAX
    && c.nextRequestId == |c.sent| + 1
    && (forall i :: 0 <= i < |c.sent| ==> c.sent[i].requestId == i + 1)
    && (forall p :: p in c.pending ==>
          && 0 < c.pending[p].requestId <= |c.sent|
          && c.sent[c.pending[p].requestId - 1].paneId == p
          && c.sent[c.pending[p].requestId - 1].offset == c.pending[p].target)
  }

  /** A request that was sent and is not waited for. */
  ghost predicate Retired(c: Client, requestId: U64) {
    0 < requestId <= |c.sent| && forall p :: p in c.pending ==> c.pending[p].requestId != requestId
  }

  /** Nothing is sent and no request is added. */
  ghost predicate OnlyForgets(c: Client, d: Client) {
    && d.sent == c.sent && d.nextRequestId == c.nextRequestId
    && forall p :: p in d.pending ==> p in c.pending && d.pending[p] == c.pending[p]
  }

  lemma ForgettingKeepsNumbers(c: Client, d: Client, requestId: U64)
    requires Numbered(c) && OnlyForgets(c, d)
    ensures Numbered(d) && (Retired(c, requestId) ==> Retired(d, requestId))
  {
  }

  lemma RequestingKeepsNumbers(c: Client, pane: PaneId, target: U64, requestId: U64)
    requires Numbered(c) && |c.sent| + 1 < U64_MAX
    ensures Numbered(RequestScrollback(c, pane, target))
    ensures Retired(c, requestId) ==> Retired(RequestScrollback(c, pane, target), requestId)
  {
    var d := RequestScrollback(c, pane, target);
    assert forall i :: 0 <= i < |c.sent| ==> d.sent[i] == c.sent[i];
  }

  /** Every act either only forgets, or forgets and then sends one request. */
  lemma ActsForgetOrRequest(c: Client, act: Act) returns (d: Client, pane: PaneId, target: U64)
    ensures OnlyForgets(c, d)
    ensures OnlyForgets(d, Perform(c, act)) || Perform(c, act) == RequestScrollback(d, pane, target)
  {
    d, pane, target := c, 0, 0;
    match act
    case Wheel(p, up, step) => d, pane, target := NotchForgetsOrRequests(c, p, up, step);
    case Window(r) => d, pane, target := WindowForgetsOrRequests(c, r);
    case _ =>
  }

  lemma NotchForgetsOrRequests(c: Client, p: PaneId, up: bool, step: U64)
    returns (d: Client, pane: PaneId, target: U64)
    ensures OnlyForgets(c, d)
    ensures OnlyForgets(d, ScrollToward(c, p, up, step))
            || ScrollToward(c, p, up, step) == RequestScrollback(d, pane, target)
  {
    d, pane := c, p;
    target := NextScrollTarget(Offset(c, p), Requested(c, p), AvailableRows(c, p), up, step);
    if target != 0 && !Cached(c, p, target) && p !in c.pending {
      d := c.(desired := c.desired - {p});
    }
  }

  lemma WindowForgetsOrRequests(c: Client, r: Reply) returns (d: Client, pane: PaneId, target: U64)
    ensures OnlyForgets(c, d)
    ensures OnlyForgets(d, OnWindow(c, r)) || OnWindow(c, r) == RequestScrollback(d, pane, target)
  {
    d, pane, target := c, r.paneId, 0;
    if Matches(c, r) && r.found && r.paneId in c.desired {
      var shown := Shown(c, r);
      target := Clamp(c.desired[r.paneId], r.totalRows);
      d := shown.(desired := shown.desired - {r.paneId});
    }
  }

  lemma ActsKeepNumbers(c: Client, act: Act, requestId: U64)
    requires Numbered(c) && |Perform(c, act).sent| < U64_MAX
    ensures Numbered(Perform(c, act))
    ensures Retired(c, requestId) ==> Retired(Perform(c, act), requestId)
  {
    var d, pane, target := ActsForgetOrRequest(c, act);
    ForgettingKeepsNumbers(c, d, requestId);
    if OnlyForgets(d, Perform(c, act)) {
      ForgettingKeepsNumbers(d, Perform(c, act), requestId);
    } else {
      RequestingKeepsNumbers(d, pane, target, requestId);
    }
  }

  lemma {:induction false} SentOnlyGrows(c: Client, acts: seq<Act>)
    ensures |c.sent| <= |PerformAll(c, acts).sent|
    decreases |acts|
  {
    if acts != [] {
      var d, pane, target := ActsForgetOrRequest(c, acts[0]);
      SentOnlyGrows(Perform(c, acts[0]), acts[1..]);
    }
  }

  /** Once a request is no longer waited for, its answer is ignored for ever, however late it comes. */
  lemma {:induction false} RetiredStaysRetired(c: Client, acts: seq<Act>, late: Reply)
    requires Numbered(c) && Retired(c, late.requestId) && |PerformAll(c, acts).sent| < U64_MAX
    ensures OnWindow(PerformAll(c, acts), late) == PerformAll(c, acts)
    ensures Retired(PerformAll(c, acts), late.requestId)
    decreases |acts|
  {
    if acts != [] {
      SentOnlyGrows(Perform(c, acts[0]), acts[1..]);
      ActsKeepNumbers(c, acts[0], late.requestId);
      RetiredStaysRetired(Perform(c, acts[0]), acts[1..], late);
    }
  }

  /** A request its pane no longer waits for, displaced by whatever act, is retired, and only such a one is. */
  lemma DisplacedIsRetired(c: Client, act: Act, pane: PaneId)
    requires Numbered(c) && pane in c.pending && |Perform(c, act).sent| < U64_MAX
    ensures var (d, displaced) := (Perform(c, act), c.pending[pane].requestId);
            Retired(d, displaced) <==> pane !in d.pending || d.pending[pane].requestId != displaced
  {
    var (d, displaced) := (Perform(c, act), c.pending[pane].requestId);
    ActsKeepNumbers(c, act, displaced);
    ActsOnlySendMore(c, act);
    assert d.sent[displaced - 1] == c.sent[displaced - 1];
    AwaitedByOnePane(d, displaced);
  }

  /** A request is awaited by the pane it was sent for, or by none. */
  lemma AwaitedByOnePane(c: Client, requestId: U64)
    requires Numbered(c) && 0 < requestId <= |c.sent|
    ensures var pane := c.sent[requestId - 1].paneId;
            Retired(c, requestId) <==> pane !in c.pending || c.pending[pane].requestId != requestId
  {
  }

  lemma ActsOnlySendMore(c: Client, act: Act)
    ensures c.sent <= Perform(c, act).sent
  {
    var d, pane, target := ActsForgetOrRequest(c, act);
  }

  /** A reply retires the request it answers. */
  lemma AnsweredIsRetired(c: Client, r: Reply)
    requires Numbered(c) && Matches(c, r) && |OnWindow(c, r).sent| < U64_MAX
    ensures Retired(OnWindow(c, r), r.requestId)
  {
    DisplacedIsRetired(c, Window(r), r.paneId);
    OnWindowAwaitsAnother(c, r);
  }

  /** Whatever the pane waits for after a matching reply, it is not the request answered. */
  lemma OnWindowAwaitsAnother(c: Client, r: Reply)
    requires Numbered(c) && Matches(c, r)
    ensures var d := OnWindow(c, r); r.paneId in d.pending ==> d.pending[r.paneId].requestId != r.requestId
  {
  }

  // ---------------------------------------------------------------------------
  // Which history
  // ---------------------------------------------------------------------------

  /** The session of history the client holds for the pane, if it holds one. */
  function IdInHand(c: Client, pane: PaneId): Option<U64> {
    if pane in c.history then c.history[pane].historyId else None
  }

  function Viewports(c: Client, pane: PaneId): set<U64> {
    if pane in c.history then c.history[pane].viewports else {}
  }

  /** The query asks for what its pane now waits for, and quotes the history in hand. */
  predicate IsAskedFor(d: Client, q: Query) {
    && q.paneId in d.pending && d.pending[q.paneId] == PendingScroll(q.requestId, q.offset)
    && q.historyId == IdInHand(d, q.paneId)
  }

  lemma NotchQuery(c: Client, pane: PaneId, up: bool, step: U64)
    ensures var d := ScrollToward(c, pane, up, step);
            d.sent == c.sent || exists q :: d.sent == c.sent + [q] && IsAskedFor(d, q) && q.requestId == c.nextRequestId
  {
    var d := ScrollToward(c, pane, up, step);
    if d.sent != c.sent {
      assert IsAskedFor(d, d.sent[|c.sent|]);
    }
  }

  lemma WindowQuery(c: Client, r: Reply)
    ensures var d := OnWindow(c, r);
            d.sent == c.sent || exists q :: d.sent == c.sent + [q] && IsAskedFor(d, q) && q.requestId == c.nextRequestId
  {
    var d := OnWindow(c, r);
    if d.sent != c.sent {
      assert IsAskedFor(d, d.sent[|c.sent|]);
    }
  }

  /** An act sends one query at most, for what the pane then waits for, under the history then in hand. */
  lemma QueriesQuoteTheHistoryInHand(c: Client, act: Act)
    ensures var d := Perform(c, act);
            d.sent == c.sent || exists q :: d.sent == c.sent + [q] && IsAskedFor(d, q) && q.requestId == c.nextRequestId
  {
    match act
    case Wheel(pane, up, step) => NotchQuery(c, pane, up, step);
    case Window(r) => WindowQuery(c, r);
    case _ =>
  }

  /** A window of the history in hand is added; one of another history stands alone. */
  lemma OneHistoryAtATime(c: Client, r: Reply)
    requires Matches(c, r) && r.found
    ensures var d := OnWindow(c, r);
            && IdInHand(d, r.paneId) == Some(r.historyId) && AvailableRows(d, r.paneId) == r.totalRows
            && Viewports(d, r.paneId)
               == {r.offset}
                  + (if IdInHand(c, r.paneId) in [None, Some(r.historyId)] then Viewports(c, r.paneId) else {})
            && forall p :: p != r.paneId ==> (p in d.history <==> p in c.history)
                                             && (p in c.history ==> d.history[p] == c.history[p])
  {
  }

  predicate Drops(c: Client, act: Act, pane: PaneId) {
    match act
    case Wheel(_, _, _) => false
    case Window(r) => Matches(c, r) && !r.found && r.paneId == pane
    case Typed(p) => p == pane
    case Resized => true
  }

  /** The history is kept as it is, or it is gone and the pane is at the live edge. */
  predicate KeepsOrDrops(c: Client, d: Client, pane: PaneId) {
    if pane in d.history then pane in c.history && d.history[pane] == c.history[pane]
    else pane in c.history ==> Offset(d, pane) == 0
  }

  lemma NotchKeepsOrDrops(c: Client, p: PaneId, up: bool, step: U64, pane: PaneId)
    ensures KeepsOrDrops(c, ScrollToward(c, p, up, step), pane)
  {
  }

  lemma ReplyKeepsOrDrops(c: Client, r: Reply, pane: PaneId)
    requires !(Matches(c, r) && r.found && r.paneId == pane)
    ensures KeepsOrDrops(c, OnWindow(c, r), pane)
  {
  }

  /** Any other act keeps a history or drops it; what ends the scrolling of a pane leaves nothing of it behind. */
  lemma OtherActsKeepOrDrop(c: Client, act: Act, pane: PaneId)
    requires act.Window? ==> !(Matches(c, act.reply) && act.reply.found && act.reply.paneId == pane)
    ensures KeepsOrDrops(c, Perform(c, act), pane)
    ensures Drops(c, act, pane) ==> pane !in Perform(c, act).history && Rests(Perform(c, act), pane, 0)
  {
    match act
    case Wheel(p, up, step) => NotchKeepsOrDrops(c, p, up, step, pane);
    case Window(r) => ReplyKeepsOrDrops(c, r, pane);
    case _ =>
  }

  /** What is cached for the pane was sent for it, in the session of history in hand. */
  ghost predicate Sourced(c: Client, acts: seq<Act>) {
    forall pane, offset :: pane in c.history && offset in c.history[pane].viewports ==> Source(c, acts, pane, offset)
  }

  ghost predicate Source(c: Client, acts: seq<Act>, pane: PaneId, offset: U64) {
    exists r :: Window(r) in acts && r.found && r.paneId == pane && r.offset == offset
                && IdInHand(c, pane) == Some(r.historyId)
  }

  lemma ActsKeepSources(c: Client, before: seq<Act>, act: Act)
    requires Sourced(c, before)
    ensures Sourced(Perform(c, act), before + [act])
  {
    var d := Perform(c, act);
    forall pane, offset | pane in d.history && offset in d.history[pane].viewports
      ensures Source(d, before + [act], pane, offset)
    {
      if act.Window? && Matches(c, act.reply) && act.reply.found && act.reply.paneId == pane {
        OneHistoryAtATime(c, act.reply);
        if offset == act.reply.offset {
          assert Window(act.reply) in before + [act];
        } else {
          var r :| Window(r) in before && r.found && r.paneId == pane && r.offset == offset
                   && IdInHand(c, pane) == Some(r.historyId);
          assert Window(r) in before + [act];
        }
      } else {
        OtherActsKeepOrDrop(c, act, pane);
        assert Source(c, before, pane, offset);
      }
    }
  }

  lemma {:induction false} RunsKeepSources(c: Client, before: seq<Act>, acts: seq<Act>)
    requires Sourced(c, before)
    ensures Sourced(PerformAll(c, acts), before + acts)
    decreases |acts|
  {
    if acts == [] {
      assert before + acts == before;
    } else {
      ActsKeepSources(c, before, acts[0]);
      RunsKeepSources(Perform(c, acts[0]), before + [acts[0]], acts[1..]);
      assert before + [acts[0]] + acts[1..] == before + acts;
    }
  }

  /** From a fresh start on, no pane is ever shown another pane's history or rows of a session that is over. */
  lemma CachesAreSourced(c: Client, acts: seq<Act>)
    requires c.history == map[]
    ensures Sourced(PerformAll(c, acts), acts)
  {
    RunsKeepSources(c, [], acts);
    assert [] + acts == acts;
  }
}
