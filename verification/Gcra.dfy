/** The rate limiter: the script that Redis runs for one key, and the call that prepares its arguments. */
module Gcra {
  import opened Prelude

  /** The script's numeric arguments. */
  datatype Params = Params(interval: int, burst: int, ttl: int) {
    ghost predicate Valid() { interval >= 1 && burst >= 1 && ttl > interval * burst }

    /** How far the theoretical arrival time may run ahead of the clock. */
    function Tolerance(): int { interval * (burst - 1) }
  }

  /** The four numbers that the script returns. */
  datatype Reply = Reply(allowed: bool, remaining: int, retryAfterMs: int, resetAfterMs: int)

  datatype Decision = Decision(allowed: bool, remaining: int, limit: int, resetAfterSecs: int, retryAfterSecs: int)

  /** A stored theoretical arrival time together with the moment its key may expire. */
  datatype Cell = Cell(tat: int, deadline: int)

  /** The arrival time the script works with once a missing or past value is replaced by the clock. */
  function Effective(tat: Option<int>, now: int): int {
    if tat.None? || tat.value < now then now else tat.value
  }

  /** The script as a function: the value under the key afterwards, and the reply. */
  function Step(p: Params, tat: Option<int>, now: int): (Option<int>, Reply)
    requires p.Valid()
  {
    var separation := Effective(tat, now) - now;
    if separation > p.Tolerance() then
      (tat, Reply(false, 0, separation - p.Tolerance(), separation))
    else
      var newSeparation := separation + p.interval;
      var free := (p.Tolerance() - newSeparation) / p.interval + 1;
      (Some(now + newSeparation), Reply(true, if free < 0 then 0 else free, 0, newSeparation))
  }

  function CeilDiv(a: int, b: int): (q: int)
    requires a >= 0 && b >= 1
    ensures b * (q - 1) < a <= b * q
  {
    (a + b - 1) / b
  }

  /** What `check` hands to the script for a limit of `limit` requests per `periodSecs` seconds. */
  function CheckParams(limit: nat, burst: nat, periodSecs: nat): (p: Params)
    ensures p.Valid()
    ensures p.interval * Max(limit, 1) >= Max(periodSecs, 1) * 1000
    ensures (p.interval - 1) * Max(limit, 1) < Max(periodSecs, 1) * 1000
    ensures p.burst == Max(burst, 1) && p.ttl - p.interval * p.burst == (Max(periodSecs, 1) + 1) * 1000
  {
    var periodMs := Max(periodSecs, 1) * 1000;
    var interval := CeilDiv(periodMs, Max(limit, 1));
    assert interval >= 1;
    Params(interval, Max(burst, 1), periodMs + interval * Max(burst, 1) + 1000)
  }

  /** Whole seconds covering a delay: the least number of seconds that is no shorter. */
  function MsToSecsCeil(ms: int): (secs: int)
    ensures 0 <= secs && ms <= 1000 * secs
    ensures ms > 0 ==> 1000 * (secs - 1) < ms
    ensures ms <= 0 ==> secs == 0
  {
    if ms <= 0 then 0 else (ms + 999) / 1000
  }

  /** The part of Redis that the limiter owns. */
  class TatStore {
    var keys: map<string, Cell>

    /** No stored arrival time outlives its key. */
    ghost predicate Valid()
      reads this
    {
      forall k :: k in keys ==> keys[k].tat < keys[k].deadline
    }

    constructor ()
      ensures Valid() && keys == map[]
    {
      keys := map[];
    }

    ghost function Stored(key: string): Option<int>
      reads this
    {
      if key in keys then Some(keys[key].tat) else None
    }

    /** GET: from its deadline on a key may already be gone. */
    method Get(key: string, now: int) returns (tat: Option<int>)
      ensures tat == Stored(key) || (tat == None && key in keys && keys[key].deadline <= now)
    {
      tat := None;
      if key in keys {
        var gone := false;
        if keys[key].deadline <= now {
          gone := *;
        }
        if !gone {
          tat := Some(keys[key].tat);
        }
      }
    }

    /** One atomic run of the script. Whether an expired key is still there makes no difference to the reply. */
    method Script(key: string, now: int, p: Params) returns (reply: Reply)
      requires Valid() && p.Valid()
      modifies this
      ensures Valid()
      ensures reply == Step(p, old(Stored(key)), now).1
      ensures !reply.allowed ==> keys == old(keys)
      ensures reply.allowed ==>
                keys == old(keys)[key := Cell(Step(p, old(Stored(key)), now).0.value, now + p.ttl)]
    {
      var found := Get(key, now);
      var burstOffset := p.interval * (p.burst - 1);
      var tat := now;
      if found.Some? {
        tat := found.value;
      }
      if tat < now {
        tat := now;
      }
      var separation := tat - now;
      if separation > burstOffset {
        var retryAfter := separation - burstOffset;
        return Reply(false, 0, retryAfter, tat - now);
      }
      var newTat := tat + p.interval;
      assert p.interval * p.burst == burstOffset + p.interval;
      keys := keys[key := Cell(newTat, now + p.ttl)];
      var newSeparation := newTat - now;
      var remaining := (burstOffset - newSeparation) / p.interval + 1;
      if remaining < 0 {
        remaining := 0;
      }
      return Reply(true, remaining, 0, newSeparation);
    }

    method Check(key: string, limit: nat, burst: nat, periodSecs: nat, now: int) returns (d: Decision)
      requires Valid()
      modifies this
      ensures Valid()
      ensures var p := CheckParams(limit, burst, periodSecs);
              var r := Step(p, old(Stored(key)), now).1;
              && d == Decision(r.allowed, r.remaining, Max(limit, 1),
                               MsToSecsCeil(r.resetAfterMs), MsToSecsCeil(r.retryAfterMs))
              && keys == if r.allowed then old(keys)[key := Cell(Step(p, old(Stored(key)), now).0.value, now + p.ttl)]
                         else old(keys)
    {
      var p := CheckParams(limit, burst, periodSecs);
      var reply := Script(key, now, p);
      d := Decision(reply.allowed, reply.remaining, Max(limit, 1),
                    MsToSecsCeil(reply.resetAfterMs), MsToSecsCeil(reply.retryAfterMs));
    }
  }
}
