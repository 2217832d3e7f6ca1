/** Vocabulary of the Idempotency-Key protocol. Times are milliseconds of one clock. */
module Idempotency {
  import opened Prelude

  type Scope = string
  type Fingerprint = string
  type Token = nat

  datatype Config = Config(entryTtl: nat, lockTtl: nat, maxBody: nat)

  datatype Response = Response(status: nat, contentType: Option<string>, body: seq<int>)

  /** What `begin` answers; `Error` stands for every error return. */
  datatype Decision =
    | Proceed(token: Token)
    | Replay(response: Response)
    | Mismatch
    | Conflict(retryAfterSecs: nat)
    | Error

  /** What the holder of an execution must hand back when it resolves. */
  datatype Guard = Guard(scope: Scope, fingerprint: Fingerprint, token: Token)

  /** One call of a backend, taken to be atomic. The token of a `Begin` is the fresh UUID it draws;
      `gzipLen` is the compressed size of the response body. */
  datatype Call =
    | Begin(scope: Scope, fingerprint: Fingerprint, token: Token, now: int)
    | Complete(guard: Guard, response: Response, gzipLen: nat, now: int)
    | Fail(guard: Guard, now: int)
  {
    /** Whether the call hands back the execution of `s` that was given out under token `t`. */
    predicate Resolves(s: Scope, t: Token) { !Begin? && guard.scope == s && guard.token == t }
  }

  ghost predicate Chronological(calls: seq<Call>) {
    forall i, j :: 0 <= i <= j < |calls| ==> calls[i].now <= calls[j].now
  }

  ghost predicate FreshTokens(calls: seq<Call>) {
    forall i, j :: 0 <= i < j < |calls| && calls[i].Begin? && calls[j].Begin? ==> calls[i].token != calls[j].token
  }

  /** The whole seconds of a lease, but never zero. */
  function LeaseSecs(lockTtl: nat): (secs: nat)
    ensures lockTtl < 2000 ==> secs == 1
    ensures lockTtl >= 1000 ==> 1000 * secs <= lockTtl < 1000 * (secs + 1)
  {
    Max(lockTtl / 1000, 1)
  }
}
