/**
 * The ownership challenge: the message a wallet owner is asked to sign, and the gate
 * `submitStar` puts in front of the ledger (a strict five-minute window measured in clock
 * seconds, then the signature check).
 */
module Ownership {
  import opened Results
  import opened JsText
  import opened Blocks

  /** The signature check of the wallet-message library, applied to (message, address, signature). */
  type Verifier = (string, string, string) -> bool

  /** The validity window of a challenge, in seconds (five minutes). */
  const Window := 5 * 60

  /** The last field of every challenge. */
  const RegistryTag := "starRegistry"

  /** `address:time:starRegistry`, the message `requestMessageOwnershipVerification` hands out. */
  function Challenge(address: string, time: string): string {
    address + ":" + time + ":" + RegistryTag
  }

  /** `parseInt(message.split(':')[1])`: the time embedded in a challenge; `None` for `NaN`. */
  function MessageTime(message: string): Option<int> {
    match Field(message, ':', 1)
    case None => None  // parseInt(undefined) is NaN
    case Some(text) => ParseInt(text)
  }

  /** `parseInt` of the clock text: the current time in seconds; `None` for `NaN`. */
  function CurrentTime(nowMs: nat): Option<int> {
    ParseInt(ClockSeconds(nowMs))
  }

  /** `currentTime - messageTime < 300`; any comparison with `NaN` is false. */
  predicate WithinWindow(messageTime: Option<int>, currentTime: Option<int>) {
    messageTime.Some? && currentTime.Some? && currentTime.value - messageTime.value < Window
  }

  /**
   * The gate of `submitStar`: the claim to store, or why the submission is rejected. The time
   * window is checked first and, when it fails, the signature is not looked at.
   */
  function Admit(address: string, message: string, signature: string, star: string, nowMs: nat, verify: Verifier)
    : (r: Result<StarClaim>)
    ensures !WithinWindow(MessageTime(message), CurrentTime(nowMs)) ==> r == Err(ChallengeExpired)
    ensures (WithinWindow(MessageTime(message), CurrentTime(nowMs)) && !verify(message, address, signature))
              ==> r == Err(NotVerified)
    ensures r.Ok? <==> WithinWindow(MessageTime(message), CurrentTime(nowMs)) && verify(message, address, signature)
    ensures r.Ok? ==> r.value == StarClaim(address, message, signature, star)
  {
    if !WithinWindow(MessageTime(message), CurrentTime(nowMs)) then Err(ChallengeExpired)
    else if !verify(message, address, signature) then Err(NotVerified)
    else Ok(StarClaim(address, message, signature, star))
  }

  /** With neither the address nor the time text holding `:`, the challenge splits back into its three fields. */
  lemma SplitChallenge(address: string, time: string)
    requires ':' !in address && ':' !in time
    ensures Split(Challenge(address, time), ':') == [address, time, RegistryTag]
  {
    assert ':' !in RegistryTag by {
      assert RegistryTag == ['s', 't', 'a', 'r', 'R', 'e', 'g', 'i', 's', 't', 'r', 'y'];
    }
    assert Challenge(address, time) == address + [':'] + (time + [':'] + RegistryTag);
    SplitAtSeparator(address, time + [':'] + RegistryTag, ':');
    SplitAtSeparator(time, RegistryTag, ':');
    SplitWithoutSeparator(RegistryTag, ':');
  }

  /**
   * For an address without `:` and a clock past its first second, the challenge splits into
   * the address, the whole seconds and `starRegistry`, so its embedded time reads back as the
   * seconds it was issued at.
   */
  lemma ChallengeFields(address: string, issuedMs: nat)
    requires ':' !in address && issuedMs >= 1000
    ensures Split(Challenge(address, ClockSeconds(issuedMs)), ':') == [address, Decimal(issuedMs / 1000), RegistryTag]
    ensures MessageTime(Challenge(address, ClockSeconds(issuedMs))) == Some(issuedMs / 1000)
  {
    var time := Decimal(issuedMs / 1000);
    ClockSecondsIsSeconds(issuedMs);
    assert ':' !in time;
    var message := Challenge(address, ClockSeconds(issuedMs));
    assert message == Challenge(address, time);
    SplitChallenge(address, time);
    assert Field(message, ':', 1) == Some(time);
    ParseDecimal(issuedMs / 1000);
  }

  /**
   * The round trip of the protocol: a challenge issued at `issuedMs` and answered at `nowMs`
   * (both past the first second, address without `:`) is admitted exactly when fewer than 300
   * whole seconds separate the two readings and the signature verifies; at 300 seconds or more
   * it is expired whatever the signature.
   */
  lemma ChallengeAnswerWindow(address: string, signature: string, star: string, issuedMs: nat, nowMs: nat, verify: Verifier)
    requires ':' !in address && issuedMs >= 1000 && nowMs >= 1000
    ensures var message := Challenge(address, ClockSeconds(issuedMs));
            Admit(address, message, signature, star, nowMs, verify) ==
              if nowMs / 1000 - issuedMs / 1000 >= Window then Err(ChallengeExpired)
              else if !verify(message, address, signature) then Err(NotVerified)
              else Ok(StarClaim(address, message, signature, star))
  {
    ChallengeFields(address, issuedMs);
    ParseClockSeconds(nowMs);
  }

  /** A message without any `:` has no time field, reads as `NaN`, and is always expired, whatever the clock and the signature. */
  lemma MessageWithoutTimeExpires(address: string, message: string, signature: string, star: string, nowMs: nat, verify: Verifier)
    requires ':' !in message
    ensures Admit(address, message, signature, star, nowMs, verify) == Err(ChallengeExpired)
  {
    SplitWithoutSeparator(message, ':');
  }
}
