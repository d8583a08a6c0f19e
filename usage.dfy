/**
 * The bot's two pieces of global bookkeeping for general commands: the rate
 * limiter (the time each user last ran each command) and the usage counters
 * (commands in total, per command and per user).
 *
 * Clock readings are milliseconds since the epoch, passed in by the caller.
 */
module Usage {
  import opened Wrappers
  import opened Text

  /** Seconds a user must wait between two runs of the same command. */
  const RateLimitSeconds := 30

  // ------------------------------------------------------------ rate limit

  /** The key of the limiter's map: the user id and the command joined by a dash. */
  function RateKey(userId: string, command: string): (key: string)
    ensures |key| == |userId| + 1 + |command|
    ensures key[..|userId|] == userId && key[|userId|] == '-' && key[|userId| + 1..] == command
  {
    userId + "-" + command
  }

  /**
   * The refusal test: the time since the last accepted run, in seconds as a
   * real number (the source divides milliseconds by 1000 without rounding),
   * is below the limit.
   */
  predicate WithinWindow(now: int, lastTime: int) {
    ((now - lastTime) as real) / 1000.0 < RateLimitSeconds as real
  }

  /** The test in whole milliseconds: below 30000 since the last accepted run. */
  lemma WithinWindowMillis(now: int, lastTime: int)
    ensures WithinWindow(now, lastTime) <==> now - lastTime < 30000
  {
    var d := (now - lastTime) as real;
    assert d / 1000.0 < 30.0 <==> d < 30000.0;
  }

  /** Whether `checkRateLimit` lets the command through. */
  predicate Allowed(last: map<string, int>, key: string, now: int) {
    key !in last || !WithinWindow(now, last[key])
  }

  /** `checkRateLimit`'s map: the first run of a command, and each one let through, stores the time. */
  class RateLimiter {
    var last: map<string, int>

    constructor ()
      ensures last == map[]
    {
      last := map[];
    }

    /**
     * `checkRateLimit`: unseen key, store `now` and allow; seen less than the
     * limit ago, refuse and change nothing; otherwise store `now` and allow.
     */
    method Check(userId: string, command: string, now: int) returns (allowed: bool)
      modifies this
      ensures allowed == Allowed(old(last), RateKey(userId, command), now)
      ensures allowed ==> last == old(last)[RateKey(userId, command) := now]
      ensures !allowed ==> last == old(last)
    {
      var key := RateKey(userId, command);
      if key !in last {
        last := last[key := now];
        return true;
      }
      var lastTime := last[key];
      if WithinWindow(now, lastTime) {
        return false;
      }
      last := last[key := now];
      return true;
    }
  }

  /**
   * Once a run is let through at `t`, the same key is refused at every time
   * from `t` up to, but not including, `t` + 30 s, and allowed from then on.
   */
  lemma RefusedForThirtySeconds(last: map<string, int>, key: string, t: int, later: int)
    requires t <= later
    ensures !Allowed(last[key := t], key, later) <==> later - t < 30000
  {
    WithinWindowMillis(later, t);
  }

  /** The limiter keeps a separate clock per key: storing one key does not change another's verdict. */
  lemma KeysIndependent(last: map<string, int>, key: string, other: string, t: int, now: int)
    requires other != key
    ensures Allowed(last[key := t], other, now) == Allowed(last, other, now)
  {
  }

  /**
   * The wait announced after a refusal: the limit minus the whole seconds
   * elapsed, read on a second clock reading `now` (`Math.floor` of a
   * non-negative quotient, which is Dafny's division).
   */
  function WaitSeconds(now: int, lastTime: int): int {
    RateLimitSeconds - (now - lastTime) / 1000
  }

  /** Read within the window, the announced wait is between 1 and 30 seconds. */
  lemma WaitInRange(now: int, lastTime: int)
    requires 0 <= now - lastTime
    requires WithinWindow(now, lastTime)
    ensures 1 <= WaitSeconds(now, lastTime) <= RateLimitSeconds
  {
    WithinWindowMillis(now, lastTime);
  }

  // ------------------------------------------------------------ statistics

  /** A user's counters; `lastCommand` is `null` until the first command. */
  datatype UserStat = UserStat(count: nat, name: string, lastCommand: Option<string>)

  /** The sum of a map's values. */
  ghost function Sum(m: map<string, nat>): nat
    decreases |m|
  {
    if m == map[] then 0
    else
      var k :| k in m;
      m[k] + Sum(m - {k})
  }

  /** Any key may be taken out first. */
  lemma {:induction false} SumRemove(m: map<string, nat>, k: string)
    requires k in m
    ensures Sum(m) == m[k] + Sum(m - {k})
    decreases |m|
  {
    var j :| j in m && Sum(m) == m[j] + Sum(m - {j});
    if j != k {
      SumRemove(m - {j}, k);
      SumRemove(m - {k}, j);
      assert m - {j} - {k} == m - {k} - {j};
    }
  }

  /** Setting one key's value changes the sum by the difference. */
  lemma SumUpdate(m: map<string, nat>, k: string, v: nat)
    ensures Sum(m[k := v]) == Sum(m) - Count(m, k) + v
  {
    SumRemove(m[k := v], k);
    if k in m {
      SumRemove(m, k);
      assert m[k := v] - {k} == m - {k};
    } else {
      assert m[k := v] - {k} == m;
    }
  }

  /** `map.get(k)` for a counter map, 0 when absent. */
  function Count(m: map<string, nat>, k: string): nat {
    if k in m then m[k] else 0
  }

  /** Each user's command count. */
  function UserCounts(users: map<string, UserStat>): (c: map<string, nat>)
    ensures c.Keys == users.Keys
    ensures forall u :: u in users ==> c[u] == users[u].count
  {
    map u | u in users :: users[u].count
  }

  /** Replacing one user's entry replaces only that user's count. */
  lemma UserCountsUpdate(users: map<string, UserStat>, u: string, s: UserStat)
    ensures UserCounts(users[u := s]) == UserCounts(users)[u := s.count]
  {
    assert UserCounts(users[u := s]).Keys == UserCounts(users)[u := s.count].Keys;
  }

  /** Adding one to a counter adds one to the sum. */
  lemma SumBump(m: map<string, nat>, k: string)
    ensures Sum(m[k := Count(m, k) + 1]) == Sum(m) + 1
  {
    SumUpdate(m, k, Count(m, k) + 1);
  }

  /** Giving a user one more command than before adds one to the users' total. */
  lemma UserSumBump(users: map<string, UserStat>, u: string, s: UserStat)
    requires s.count == Count(UserCounts(users), u) + 1
    ensures Sum(UserCounts(users[u := s])) == Sum(UserCounts(users)) + 1
  {
    UserCountsUpdate(users, u, s);
    SumUpdate(UserCounts(users), u, s.count);
  }

  /** `users.get(u)` after the source's "create if absent" step. */
  function UserEntry(users: map<string, UserStat>, userId: string, userName: string): UserStat {
    if userId in users then users[userId] else UserStat(0, userName, None)
  }

  /** `updateStats`' module-level counters. */
  class CommandStats {
    var total: nat
    var byType: map<string, nat>
    var users: map<string, UserStat>

    /** Every command counted once in the total, once under its name and once under its user. */
    ghost predicate Valid()
      reads this
    {
      total == Sum(byType) && total == Sum(UserCounts(users))
    }

    constructor ()
      ensures total == 0 && byType == map[] && users == map[]
      ensures Valid()
    {
      total := 0;
      byType := map[];
      users := map[];
      assert UserCounts(map[]) == map[];
    }

    /**
     * `updateStats`: one more command in total, under its name and under its
     * user, created with the given name and no last command when new; the
     * user's last command becomes this one.
     */
    method Update(userId: string, command: string, userName: string)
      requires Valid()
      modifies this
      ensures Valid()
      ensures total == old(total) + 1
      ensures byType == old(byType)[command := Count(old(byType), command) + 1]
      ensures var e := UserEntry(old(users), userId, userName);
              users == old(users)[userId := e.(count := e.count + 1, lastCommand := Some(command))]
      ensures Sum(byType) == old(Sum(byType)) + 1
      ensures Sum(UserCounts(users)) == old(Sum(UserCounts(users))) + 1
    {
      total := total + 1;

      var typeCounts := byType;
      if command !in typeCounts {
        typeCounts := typeCounts[command := 0];
      }
      typeCounts := typeCounts[command := typeCounts[command] + 1];
      assert typeCounts == old(byType)[command := Count(old(byType), command) + 1];
      SumBump(byType, command);

      var table := users;
      if userId !in table {
        table := table[userId := UserStat(0, userName, None)];
      }
      var userData := table[userId];
      var entry := userData.(count := userData.count + 1, lastCommand := Some(command));
      assert userData == UserEntry(users, userId, userName);
      UserSumBump(users, userId, entry);

      byType, users := typeCounts, users[userId := entry];
    }
  }
}
