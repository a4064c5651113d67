/** The coordinator's `LedgerWriter` and a member's `LedgerVerifier`, updated in place. */
module LedgerObjects {
  import opened Common
  import opened LedgerCodec
  import opened Ledger
  import L = Ledger

  class LedgerWriter {
    const crypto: Crypto
    const sessionId: Bytes
    const secret: SecretKey
    const epoch: U64
    var nextSeq: U64
    var prevHash: Digest

    function View(): Writer
      reads this
    {
      Writer(sessionId, secret, nextSeq, prevHash, epoch)
    }

    constructor (crypto: Crypto, sessionId: Bytes, secret: SecretKey)
      ensures View() == NewWriter(sessionId, secret) && this.crypto == crypto
    {
      this.crypto, this.sessionId, this.secret, this.epoch := crypto, sessionId, secret, 0;
      nextSeq, prevHash := 1, GENESIS_PREV_HASH;
    }

    constructor Continue(
      crypto: Crypto, sessionId: Bytes, secret: SecretKey, nextSeq: U64, prevHash: Digest, epoch: U64)
      ensures View() == Resume(sessionId, secret, nextSeq, prevHash, epoch) && this.crypto == crypto
    {
      this.crypto, this.sessionId, this.secret, this.epoch := crypto, sessionId, secret, epoch;
      this.nextSeq, this.prevHash := if nextSeq == 0 then 1 else nextSeq, prevHash;
    }

    method Append(change: Change) returns (entry: Entry)
      modifies this
      ensures (View(), entry) == Seal(crypto, old(View()), change)
    {
      entry := Entry(nextSeq, prevHash, change.author, change.kind.Number(), change.payload,
                     change.authorSignature, [], epoch);
      var hash := EntryHash(crypto, sessionId, entry);
      entry := entry.(coordinatorSignature := crypto.sign(secret, hash));
      nextSeq := SaturatingSucc(nextSeq);
      prevHash := hash;
    }
  }

  class LedgerVerifier {
    const crypto: Crypto
    const sessionId: Bytes
    var coordinator: PublicKey
    var expectedSeq: Option<U64>
    var prevHash: Option<Digest>
    var epoch: U64

    function View(): Verifier
      reads this
    {
      Verifier(sessionId, coordinator, expectedSeq, prevHash, epoch)
    }

    constructor AtEpoch(crypto: Crypto, sessionId: Bytes, coordinator: PublicKey, epoch: U64)
      ensures View() == NewVerifier(sessionId, coordinator, epoch) && this.crypto == crypto
    {
      this.crypto, this.sessionId, this.coordinator, this.epoch := crypto, sessionId, coordinator, epoch;
      expectedSeq, prevHash := None, None;
    }

    method Accept(entry: Entry) returns (r: Result<(), LedgerError>)
      modifies this
      ensures (View(), r) == L.Accept(crypto, old(View()), entry)
    {
      var hash :- Check(crypto, View(), entry);
      expectedSeq := Some(SaturatingSucc(entry.seqNo));
      prevHash := Some(hash);
      return Success(());
    }

    method Rotate(coordinator: PublicKey, epoch: U64) returns (r: Result<(), LedgerError>)
      modifies this
      ensures (View(), r) == L.Rotate(old(View()), coordinator, epoch)
    {
      if epoch <= this.epoch {
        return Failure(WrongEpoch(this.epoch, epoch));
      }
      this.coordinator := coordinator;
      this.epoch := epoch;
      expectedSeq := None;
      prevHash := None;
      return Success(());
    }
  }
}
