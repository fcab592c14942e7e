/** The per-group state machine of section 7 of RFC 2236 as igmp_router_timer_expired ages it. */
module IgmpTimers {
  import ModArith

  datatype GroupState = NoMembers | Members | V1Members | Checking

  datatype Timers = Timers(state: GroupState, group: int, v1: int, retransmit: int)

  /** Group membership interval, last member query interval and last member query count. */
  datatype Config = Config(membership: nat, interval: nat, count: nat)

  /** What a tick makes of a group: the queries sent for it, and either its removal or its timers and queries left. */
  datatype Aged = Gone(sent: nat) | Kept(timers: Timers, left: nat, sent: nat)

  /** One tick for one group of a database with q scheduled queries. A group without members would stop the scan, so
      none may be in a database. */
  function Age(c: Config, t: Timers, q: nat): Aged
    requires t.state != NoMembers
    decreases q
  {
    match t.state
    case Checking =>
      if t.retransmit > 0 then Kept(t.(retransmit := t.retransmit - 1), q, 0)
      else if q == 0 then Gone(0)
      else More(1, Age(c, t.(retransmit := c.interval), q - 1))
    case V1Members =>
      var t' := if t.v1 <= 0 then t.(state := Members) else t.(v1 := t.v1 - 1);
      AgeGroup(t', q)
    case Members => AgeGroup(t, q)
  }

  function AgeGroup(t: Timers, q: nat): Aged {
    if t.group <= 0 then Gone(0) else Kept(t.(group := t.group - 1), q, 0)
  }

  function More(n: nat, a: Aged): Aged {
    match a
    case Gone(sent) => Gone(n + sent)
    case Kept(t, left, sent) => Kept(t, left, n + sent)
  }

  lemma {:induction false} AgeKeepsState(c: Config, t: Timers, q: nat)
    requires t.state != NoMembers
    ensures Age(c, t, q).Kept? ==>
      var k := Age(c, t, q);
      && k.timers.state != NoMembers && k.left + k.sent == q
      && (t.state != Checking ==> k.timers.state != Checking && k.left == q)
      && (t.state == Checking ==> k.timers.state == Checking)
    decreases q
  {
    if t.state == Checking && t.retransmit <= 0 && q > 0 {
      AgeKeepsState(c, t.(retransmit := c.interval), q - 1);
    }
  }

  /** n ticks without a report or a leave. */
  function Ticks(c: Config, t: Timers, q: nat, n: nat): Aged
    requires t.state != NoMembers
    decreases n
  {
    if n == 0 then Kept(t, q, 0)
    else
      AgeKeepsState(c, t, q);
      match Age(c, t, q)
      case Gone(sent) => Gone(sent)
      case Kept(t', q', sent) => More(sent, Ticks(c, t', q', n - 1))
  }

  lemma {:induction false} TicksAgain(c: Config, t: Timers, q: nat, n: nat)
    requires t.state != NoMembers && Ticks(c, t, q, n).Kept?
    ensures var k := Ticks(c, t, q, n);
      k.timers.state != NoMembers && Ticks(c, t, q, n + 1) == More(k.sent, Age(c, k.timers, k.left))
    decreases n
  {
    AgeKeepsState(c, t, q);
    if n > 0 {
      var k := Age(c, t, q);
      TicksAgain(c, k.timers, k.left, n - 1);
    }
  }

  /** With the interval zero all queries go out in one tick; otherwise each expiry sends one. */
  lemma {:induction false} AgeExpired(c: Config, t: Timers, q: nat)
    requires t.state == Checking && t.retransmit <= 0
    ensures c.interval == 0 ==> Age(c, t, q) == Gone(q)
    ensures c.interval > 0 && q > 0 ==> Age(c, t, q) == Kept(t.(retransmit := c.interval - 1), q - 1, 1)
    ensures q == 0 ==> Age(c, t, q) == Gone(0)
    decreases q
  {
    if q > 0 && c.interval == 0 {
      AgeExpired(c, t.(retransmit := 0), q - 1);
    }
  }

  /** A group that is being checked stays exactly until its queries have run out. */
  lemma {:induction false} CheckingLasts(c: Config, t: Timers, q: nat, n: nat)
    requires t.state == Checking && t.retransmit >= 0
    ensures n <= t.retransmit + q * c.interval ==> Ticks(c, t, q, n).Kept? && Ticks(c, t, q, n).timers.state == Checking
    ensures n == t.retransmit + q * c.interval + 1 ==> Ticks(c, t, q, n) == Gone(q)
    decreases n
  {
    if n > 0 {
      AgeKeepsState(c, t, q);
      if t.retransmit > 0 {
        CheckingLasts(c, t.(retransmit := t.retransmit - 1), q, n - 1);
      } else {
        AgeExpired(c, t, q);
        if q > 0 && c.interval > 0 {
          assert q * c.interval == (q - 1) * c.interval + c.interval;
          CheckingLasts(c, t.(retransmit := c.interval - 1), q - 1, n - 1);
        }
      }
    }
  }

  /** The timers that the leave handler sets. */
  function Left(c: Config): Timers {
    Timers(Checking, c.interval * c.count, 0, c.interval)
  }

  /** Section 7 of RFC 2236: an unanswered leave removes the group on tick interval * count + 1, not earlier, after
      count - 1 group-specific queries. */
  lemma {:induction false} LeaveExpires(c: Config, n: nat)
    requires c.count >= 1
    ensures n <= c.interval * c.count ==> Ticks(c, Left(c), c.count - 1, n).Kept?
    ensures n == c.interval * c.count + 1 ==> Ticks(c, Left(c), c.count - 1, n) == Gone(c.count - 1)
  {
    CheckingLasts(c, Left(c), c.count - 1, n);
    assert c.interval * c.count == c.interval + (c.count - 1) * c.interval;
  }

  /** A membership that is not refreshed lasts exactly the membership interval, with version 1 hosts or without. */
  lemma {:induction false} MembershipLasts(c: Config, t: Timers, q: nat, n: nat)
    requires t.state == Members || t.state == V1Members
    requires t.group >= 0
    ensures n <= t.group ==> Ticks(c, t, q, n).Kept?
    ensures n == t.group + 1 ==> Ticks(c, t, q, n) == Gone(0)
    decreases n
  {
    if n > 0 && t.group > 0 {
      AgeKeepsState(c, t, q);
      MembershipLasts(c, Age(c, t, q).timers, q, n - 1);
    }
  }

  /** A membership without version 1 hosts only counts down. */
  lemma {:induction false} MembersAfter(c: Config, t: Timers, q: nat, n: nat)
    requires t.state == Members && n <= t.group
    ensures Ticks(c, t, q, n) == Kept(Timers(Members, t.group - n, t.v1, t.retransmit), q, 0)
    decreases n
  {
    if n > 0 {
      MembersAfter(c, t.(group := t.group - 1), q, n - 1);
    }
  }

  /** Version 1 hosts are taken to be there up to the tick of their timer and not on the next. */
  lemma {:induction false} Version1After(c: Config, t: Timers, q: nat, n: nat)
    requires t.state == V1Members && 0 <= t.v1 && n <= t.group
    ensures n <= t.v1 ==> Ticks(c, t, q, n) == Kept(Timers(V1Members, t.group - n, t.v1 - n, t.retransmit), q, 0)
    ensures t.v1 < n ==> Ticks(c, t, q, n) == Kept(Timers(Members, t.group - n, 0, t.retransmit), q, 0)
    decreases n
  {
    if n > 0 {
      if t.v1 > 0 {
        Version1After(c, t.(v1 := t.v1 - 1, group := t.group - 1), q, n - 1);
      } else {
        MembersAfter(c, t.(state := Members, group := t.group - 1), q, n - 1);
      }
    }
  }

  /** One group-specific query goes out on the tick after the retransmission timer has run down, and one every interval
      from then on. */
  lemma {:induction false} CheckingSends(c: Config, t: Timers, q: nat, n: nat)
    requires t.state == Checking && t.retransmit >= 0 && c.interval > 0 && n <= t.retransmit + q * c.interval
    ensures Ticks(c, t, q, n).Kept?
    ensures Ticks(c, t, q, n).sent == if n <= t.retransmit then 0 else 1 + (n - t.retransmit - 1) / c.interval
    decreases n
  {
    if n > 0 {
      AgeKeepsState(c, t, q);
      if t.retransmit > 0 {
        CheckingSends(c, t.(retransmit := t.retransmit - 1), q, n - 1);
      } else {
        AgeExpired(c, t, q);
        assert q > 0;
        assert q * c.interval == (q - 1) * c.interval + c.interval;
        CheckingSends(c, t.(retransmit := c.interval - 1), q - 1, n - 1);
        OneMoreInterval(n - 1, c.interval);
      }
    }
  }

  lemma OneMoreInterval(m: nat, i: nat)
    requires i > 0
    ensures 1 + m / i == if m <= i - 1 then 1 else 1 + (1 + (m - i) / i)
  {
    if m < i {
      ModArith.UniqueRemainder(m, i, 0, m);
    } else {
      var d, r := (m - i) / i, (m - i) % i;
      assert m - i == i * d + r;
      assert i * (d + 1) == i * d + i;
      ModArith.UniqueRemainder(m, i, d + 1, r);
    }
  }
}
