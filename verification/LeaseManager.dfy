/** `LeaseManager`, updated in place. */
module LeaseManagement {
  import opened Common
  import opened Lease
  import L = Lease

  class LeaseManager {
    var state: LeaseState

    constructor (initialController: PeerId, now: nat)
      ensures state == LeaseState(initialController, 1, now)
    {
      state := LeaseState(initialController, 1, now);
    }

    method Change(sender: PeerId, now: nat) returns (r: Result<Decision, LeaseError>)
      modifies this
      ensures match ChangeController(old(state), sender, now)
              case Failure(error) => state == old(state) && r == Failure(error)
              case Success(next) => state == next && r == Success(Publish(next))
    {
      if state.epoch == U64_MAX {
        return Failure(EpochExhausted);
      }
      state := LeaseState(sender, state.epoch + 1, now);
      return Success(Publish(state));
    }

    method Input(sender: PeerId, epoch: U64, data: Bytes, now: nat) returns (r: Decision)
      modifies this
      ensures (state, r) == L.Input(old(state), sender, epoch, data, now)
    {
      if data == [] || epoch != state.epoch {
        return RejectStaleInput;
      }
      if state.controller != [] && IsIdleAt(state, now) {
        var cleared := Change([], now);
        if cleared.Failure? {
          return RejectStaleInput;
        }
      }
      if state.controller == [] {
        var taken := Change(sender, now);
        if taken.Failure? {
          return RejectStaleInput;
        }
      } else if sender != state.controller {
        return RejectStaleInput;
      }
      state := state.(lastActivity := now);
      return AcceptInput(data);
    }

    method ClearController(now: nat) returns (r: Result<Option<LeaseState>, LeaseError>)
      modifies this
      ensures (state, r) == L.ClearController(old(state), now)
    {
      if state.controller == [] {
        return Success(None);
      }
      var published :- Change([], now);
      return Success(Some(published.state));
    }

    method ClearIfIdle(now: nat) returns (r: Result<Option<LeaseState>, LeaseError>)
      modifies this
      ensures (state, r) == L.ClearIfIdle(old(state), now)
    {
      if state.controller == [] || !IsIdleAt(state, now) {
        return Success(None);
      }
      r := ClearController(now);
    }

    method TakeControl(sender: PeerId, knownEpoch: U64, now: nat) returns (r: Result<Decision, LeaseError>)
      modifies this
      ensures (state, r) == L.TakeControl(old(state), sender, knownEpoch, now)
    {
      if knownEpoch != state.epoch {
        return Success(RejectStaleRequest);
      }
      if state.epoch == U64_MAX {
        return Failure(EpochExhausted);
      }
      if state.controller != [] && !IsIdleAt(state, now) {
        return Success(RejectActiveController);
      }
      r := Change(sender, now);
    }
  }
}
