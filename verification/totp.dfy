/**
 * TOTP (RFC 6238) as the pyotp library computes it for this system:
 * T0 = 0, a 30-second step, six digits, HMAC-SHA1. HOTP itself (RFC 4226)
 * is not modelled; it is a parameter of every operation here.
 */
module Totp {

  /** The time step in seconds: app.py passes it, totp.py and the cron
      script rely on pyotp's default, which is the same. */
  const Interval: nat := 30

  /** Six decimal digits. */
  predicate IsCode(s: string) {
    |s| == 6 && forall i :: 0 <= i < |s| ==> '0' <= s[i] <= '9'
  }

  type Code = s: string | IsCode(s) witness "000000"

  /** HOTP with HMAC-SHA1 truncated to six digits, keyed by the base32
      secret handed to pyotp and applied to a moving-factor counter. */
  type Hotp = (string, int) -> Code

  /** The number of whole steps since the epoch at Unix time `t`. */
  function Counter(t: nat): nat {
    t / Interval
  }

  /** `pyotp.TOTP(key).at(t)`, and `.now()` when `t` is the current time. */
  function CodeAt(hotp: Hotp, key: string, t: nat): Code {
    hotp(key, Counter(t))
  }

  /** pyotp's window loop: does `code` equal the code of any counter
      `counter + i` for `from <= i <= upTo`, tried in increasing order. */
  function MatchesFrom(hotp: Hotp, key: string, code: string, counter: int, from: int, upTo: int): bool
    decreases upTo - from + 1
  {
    if from > upTo then false
    else code == hotp(key, counter + from) || MatchesFrom(hotp, key, code, counter, from + 1, upTo)
  }

  /** `pyotp.TOTP(key).verify(code, for_time=t, valid_window=w)`. */
  function Verify(hotp: Hotp, key: string, code: string, t: nat, w: int): bool {
    MatchesFrom(hotp, key, code, Counter(t), -w, w)
  }

  lemma {:induction false} MatchesFromIff(hotp: Hotp, key: string, code: string, counter: int, from: int, upTo: int)
    ensures MatchesFrom(hotp, key, code, counter, from, upTo)
        <==> exists c :: counter + from <= c <= counter + upTo && code == hotp(key, c)
    decreases upTo - from + 1
  {
    if from <= upTo {
      MatchesFromIff(hotp, key, code, counter, from + 1, upTo);
      if code != hotp(key, counter + from) {
        if exists c :: counter + from <= c <= counter + upTo && code == hotp(key, c) {
          var c :| counter + from <= c <= counter + upTo && code == hotp(key, c);
          assert c != counter + from;
        }
      }
    }
  }

  /** A code is accepted exactly when it is the code of some step within
      `w` steps of the current one, in either direction. */
  lemma VerifyIff(hotp: Hotp, key: string, code: string, t: nat, w: int)
    ensures Verify(hotp, key, code, t, w)
        <==> exists c :: Counter(t) - w <= c <= Counter(t) + w && code == hotp(key, c)
  {
    MatchesFromIff(hotp, key, code, Counter(t), -w, w);
  }

  /** The current code is accepted at the same instant by any window that
      is not negative. */
  lemma CurrentCodeVerifies(hotp: Hotp, key: string, t: nat, w: int)
    requires w >= 0
    ensures Verify(hotp, key, CodeAt(hotp, key, t), t, w)
  {
    VerifyIff(hotp, key, CodeAt(hotp, key, t), t, w);
  }

  /** With a window of `w`, the code of the instant `k` steps earlier or
      later is accepted for every `k` up to `w`. */
  lemma NeighbourCodeVerifies(hotp: Hotp, key: string, t: nat, w: int, k: int)
    requires -w <= k <= w && t + k * Interval >= 0
    ensures Verify(hotp, key, CodeAt(hotp, key, t + k * Interval), t, w)
  {
    assert Counter(t + k * Interval) == Counter(t) + k;
    VerifyIff(hotp, key, CodeAt(hotp, key, t + k * Interval), t, w);
  }

  /** Widening the window never turns an acceptance into a rejection. */
  lemma WiderWindowAccepts(hotp: Hotp, key: string, code: string, t: nat, w: int, w': int)
    requires w <= w' && Verify(hotp, key, code, t, w)
    ensures Verify(hotp, key, code, t, w')
  {
    VerifyIff(hotp, key, code, t, w);
    VerifyIff(hotp, key, code, t, w');
  }

  /** A negative window accepts nothing. */
  lemma NegativeWindowRejects(hotp: Hotp, key: string, code: string, t: nat, w: int)
    requires w < 0
    ensures !Verify(hotp, key, code, t, w)
  {
  }
}
