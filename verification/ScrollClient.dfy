/** The client's scrollback maps, updated in place. */
module ScrollClients {
  import opened Common
  import opened Scrollback
  import S = Scrollback

  class ScrollClient {
    var history: map<PaneId, History>
    var desired: map<PaneId, U64>
    var pending: map<PaneId, PendingScroll>
    var visible: map<PaneId, U64>
    var nextRequestId: U64
    var sent: seq<Query>

    function View(): Client
      reads this
    {
      Client(history, desired, pending, visible, nextRequestId, sent)
    }

    constructor (panes: set<PaneId>)
      ensures View() == Client(map[], map[], map[], map pane | pane in panes :: 0, 1, [])
    {
      history, desired, pending := map[], map[], map[];
      visible := map pane | pane in panes :: 0;
      nextRequestId, sent := 1, [];
    }

    method SetOffset(pane: PaneId, offset: U64)
      modifies this`visible
      ensures View() == WithOffset(old(View()), pane, offset)
    {
      if pane in visible {
        visible := visible[pane := offset];
      }
    }

    method RequestScrollback(pane: PaneId, target: U64)
      modifies this`pending, this`nextRequestId, this`sent
      ensures View() == S.RequestScrollback(old(View()), pane, target)
    {
      var requestId := nextRequestId;
      nextRequestId := if nextRequestId == U64_MAX then 1 else nextRequestId + 1;
      var historyId := if pane in history then history[pane].historyId else None;
      pending := pending[pane := PendingScroll(requestId, target)];
      sent := sent + [Query(pane, historyId, target, requestId)];
    }

    method ScrollPaneToward(pane: PaneId, up: bool, step: U64)
      modifies this
      ensures View() == ScrollToward(old(View()), pane, up, step)
    {
      var rows := if pane in history then history[pane].totalRows else UNKNOWN_ROWS;
      var asked := if pane in desired then Some(desired[pane])
                   else if pane in pending then Some(pending[pane].target) else None;
      var target := NextScrollTarget(Offset(View(), pane), asked, rows, up, step);
      if target == 0 || (pane in history && target in history[pane].viewports) {
        desired := desired - {pane};
        pending := pending - {pane};
        SetOffset(pane, target);
        if target == 0 {
          history := history - {pane};
        }
      } else if pane in pending {
        desired := desired[pane := target];
      } else {
        desired := desired - {pane};
        RequestScrollback(pane, target);
      }
    }

    method TakeMatchingPending(pane: PaneId, requestId: U64) returns (r: Option<PendingScroll>)
      modifies this`pending
      ensures r.Some? <==> pane in old(pending) && old(pending)[pane].requestId == requestId
      ensures r.Some? ==> r.value == old(pending)[pane] && pending == old(pending) - {pane}
      ensures r.None? ==> pending == old(pending)
    {
      if pane !in pending || pending[pane].requestId != requestId {
        return None;
      }
      r := Some(pending[pane]);
      pending := pending - {pane};
    }

    method AbandonHistory(pane: PaneId)
      modifies this
      ensures View() == S.AbandonHistory(old(View()), pane)
    {
      desired := desired - {pane};
      history := history - {pane};
      SetOffset(pane, 0);
    }

    method ScrollbackWindow(reply: Reply)
      modifies this
      ensures View() == OnWindow(old(View()), reply)
    {
      var pane := reply.paneId;
      var claimed := TakeMatchingPending(pane, reply.requestId);
      if claimed.None? {
        return;
      }
      if !reply.found {
        AbandonHistory(pane);
        return;
      }
      history := history[pane := Installed(View(), reply)];
      SetOffset(pane, Clamp(claimed.value.target, reply.totalRows));
      assert View() == Shown(old(View()), reply);
      if pane in desired {
        var further := Clamp(desired[pane], reply.totalRows);
        desired := desired - {pane};
        if further in history[pane].viewports {
          SetOffset(pane, further);
        } else {
          RequestScrollback(pane, further);
        }
      }
    }
  }
}
