/**
 Truncating the pending transactions of a pool: accounts with many of them are cut down to a
 common level, until the pool is within its limit.
 */
module PendingPool {
  import opened Transactions

  type Address = nat

  /** The pending transactions of each account, by nonce. */
  type Lists = map<Address, seq<Tx>>

  /** The number of transactions of the accounts. */
  ghost function Total(lists: Lists): (sum: nat)
  {
    TotalOf(lists, lists.Keys)
  }

  ghost function TotalOf(lists: Lists, accounts: set<Address>): (sum: nat)
    requires accounts <= lists.Keys
  {
    if accounts == {} then 0
    else
      var a :| a in accounts;
      |lists[a]| + TotalOf(lists, accounts - {a})
  }

  /** Which account is counted first does not matter. */
  lemma {:induction false} TotalRemove(lists: Lists, accounts: set<Address>, a: Address)
    requires a in accounts && accounts <= lists.Keys
    ensures TotalOf(lists, accounts) == |lists[a]| + TotalOf(lists, accounts - {a})
    decreases accounts
  {
    var b :| b in accounts && TotalOf(lists, accounts) == |lists[b]| + TotalOf(lists, accounts - {b});
    if a != b {
      TotalRemove(lists, accounts - {b}, a);
      TotalRemove(lists, accounts - {a}, b);
      assert accounts - {b} - {a} == accounts - {a} - {b};
    }
  }

  lemma {:induction false} TotalSame(lists: Lists, lists': Lists, accounts: set<Address>)
    requires accounts <= lists.Keys && accounts <= lists'.Keys
    requires forall a | a in accounts :: |lists[a]| == |lists'[a]|
    ensures TotalOf(lists, accounts) == TotalOf(lists', accounts)
    decreases accounts
  {
    if accounts != {} {
      var a :| a in accounts;
      TotalRemove(lists, accounts, a);
      TotalRemove(lists', accounts, a);
      TotalSame(lists, lists', accounts - {a});
    }
  }

  lemma {:induction false} TotalAtMost(lists: Lists, lists': Lists, accounts: set<Address>)
    requires accounts <= lists.Keys && accounts <= lists'.Keys
    requires forall a | a in accounts :: |lists[a]| <= |lists'[a]|
    ensures TotalOf(lists, accounts) <= TotalOf(lists', accounts)
    decreases accounts
  {
    if accounts != {} {
      var a :| a in accounts;
      TotalRemove(lists, accounts, a);
      TotalRemove(lists', accounts, a);
      TotalAtMost(lists, lists', accounts - {a});
    }
  }

  lemma TotalUpdate(lists: Lists, a: Address, list: seq<Tx>)
    requires a in lists
    ensures Total(lists[a := list]) == Total(lists) - |lists[a]| + |list|
  {
    var lists' := lists[a := list];
    assert lists'.Keys == lists.Keys;
    TotalRemove(lists, lists.Keys, a);
    TotalRemove(lists', lists.Keys, a);
    TotalSame(lists, lists', lists.Keys - {a});
  }

  // ---------- cutting to a level ----------

  /** The lists with the transactions of the accounts above the level dropped, highest nonces first. */
  function Cut(lists: Lists, who: set<Address>, level: nat): (cut: Lists)
    ensures cut.Keys == lists.Keys
    ensures forall a | a in lists :: cut[a] == if a in who && |lists[a]| > level then lists[a][..level] else lists[a]
  {
    map a | a in lists :: if a in who && |lists[a]| > level then lists[a][..level] else lists[a]
  }

  /** Every listed account loses its last transaction. */
  function Shortened(lists: Lists, who: set<Address>): (cut: Lists)
    ensures cut.Keys == lists.Keys
    ensures forall a | a in lists ::
              cut[a] == if a in who && |lists[a]| > 0 then lists[a][..|lists[a]| - 1] else lists[a]
  {
    map a | a in lists :: if a in who && |lists[a]| > 0 then lists[a][..|lists[a]| - 1] else lists[a]
  }

  /** The accounts at or above the level. */
  ghost function AtLevel(lists: Lists, who: set<Address>, level: nat): (top: set<Address>)
  {
    set a | a in who && a in lists && |lists[a]| >= level
  }

  /** Dropping one transaction of each account at the level lowers the level by one. */
  lemma CutStep(lists: Lists, who: set<Address>, level: nat, top: set<Address>)
    requires level > 0 && top == AtLevel(lists, who, level)
    ensures forall a | a in top && a in Cut(lists, who, level) :: |Cut(lists, who, level)[a]| == level
    ensures Shortened(Cut(lists, who, level), top) == Cut(lists, who, level - 1)
  {
    var cut, less := Cut(lists, who, level), Cut(lists, who, level - 1);
    forall a | a in lists
      ensures Shortened(cut, top)[a] == less[a]
    {
      if a in top {
        assert cut[a] == lists[a][..level];
        assert lists[a][..level][..level - 1] == lists[a][..level - 1];
      }
    }
  }

  lemma CutMonotone(lists: Lists, who: set<Address>, low: nat, high: nat)
    requires low <= high
    ensures Total(Cut(lists, who, low)) <= Total(Cut(lists, who, high))
  {
    TotalAtMost(Cut(lists, who, low), Cut(lists, who, high), lists.Keys);
  }

  /** A level the pool may be cut to: at least the guaranteed slots, within the limit if above
      them, and such that the next level would exceed the limit if anything was dropped. */
  ghost predicate Fair(lists: Lists, who: set<Address>, accountSlots: nat, globalSlots: nat, level: nat)
  {
    && level >= accountSlots
    && (Total(Cut(lists, who, level)) <= globalSlots || level == accountSlots)
    && (Cut(lists, who, level) == lists || Total(Cut(lists, who, level + 1)) > globalSlots)
  }

  /** What fairness means for accounts: local ones and those within the guaranteed slots are not touched, no
      other one falls below them, the pool is within its limit unless nobody else has more than them, and
      nobody else keeps more than an account that lost something. */
  lemma FairMeans(lists: Lists, locals: set<Address>, accountSlots: nat, globalSlots: nat, level: nat)
    requires Fair(lists, Spammers(lists, locals, accountSlots), accountSlots, globalSlots, level)
    ensures var cut := Cut(lists, Spammers(lists, locals, accountSlots), level);
            && cut.Keys == lists.Keys
            && (forall a | a in lists :: cut[a] <= lists[a])
            && (forall a | a in lists && (a in locals || |lists[a]| <= accountSlots) :: cut[a] == lists[a])
            && (forall a | a in lists && |lists[a]| > accountSlots :: |cut[a]| >= accountSlots)
            && (Total(cut) <= globalSlots || forall a | a in lists && a !in locals :: |cut[a]| <= accountSlots)
            && (forall a, b {:trigger cut[a], cut[b]}
                | a in lists && b in lists && b !in locals && cut[a] != lists[a] :: |cut[b]| <= |cut[a]|)
  {
    hide Total;
  }

  /** There is one fair result, so the order in which equal accounts are cut does not matter. */
  lemma FairUnique(lists: Lists, who: set<Address>, accountSlots: nat, globalSlots: nat, l: nat, m: nat)
    requires Fair(lists, who, accountSlots, globalSlots, l) && Fair(lists, who, accountSlots, globalSlots, m) && l <= m
    ensures Cut(lists, who, l) == Cut(lists, who, m)
  {
    hide Cut;
    if l < m {
      CutMonotone(lists, who, l + 1, m);
      if Cut(lists, who, l) == lists {
        AboveAll(lists, who, l, m);
      }
    }
  }

  lemma AboveAll(lists: Lists, who: set<Address>, l: nat, m: nat)
    requires l <= m && Cut(lists, who, l) == lists
    ensures Cut(lists, who, m) == lists
  {
    forall a | a in lists
      ensures Cut(lists, who, m)[a] == lists[a]
    {
      assert Cut(lists, who, l)[a] == lists[a];
    }
  }

  // ---------- what was dropped ----------

  /** The transactions of the longer lists missing at the ends of the shorter ones. */
  ghost function Dropped(before: Lists, after: Lists): (txs: set<Tx>)
  {
    set a, i | a in before && a in after && |after[a]| <= i < |before[a]| :: before[a][i]
  }

  /** Each list is a front part. */
  ghost predicate Fronts(after: Lists, before: Lists)
  {
    after.Keys == before.Keys && forall a | a in after :: after[a] <= before[a]
  }

  lemma DroppedNext(orig: Lists, before: Lists, after: Lists)
    requires Fronts(before, orig) && Fronts(after, before)
    ensures Fronts(after, orig) && Dropped(orig, after) == Dropped(orig, before) + Dropped(before, after)
  {
    forall t | t in Dropped(orig, after)
      ensures t in Dropped(orig, before) + Dropped(before, after)
    {
      var a, i :| a in orig && a in after && |after[a]| <= i < |orig[a]| && t == orig[a][i];
      assert i < |before[a]| ==> before[a][i] == t;
    }
    forall t | t in Dropped(before, after)
      ensures t in Dropped(orig, after)
    {
      var a, i :| a in before && a in after && |after[a]| <= i < |before[a]| && t == before[a][i];
      assert orig[a][i] == t;
    }
    forall t | t in Dropped(orig, before)
      ensures t in Dropped(orig, after)
    {
      var a, i :| a in orig && a in before && |before[a]| <= i < |orig[a]| && t == orig[a][i];
      assert |after[a]| <= i;
    }
  }

  /** What remains of a set of transactions. */
  ghost function Kept(all: set<Tx>, before: Lists, after: Lists): (txs: set<Tx>)
  {
    all - Dropped(before, after)
  }

  lemma KeptNext(all: set<Tx>, orig: Lists, before: Lists, after: Lists)
    requires Fronts(before, orig) && Fronts(after, before)
    ensures Fronts(after, orig) && Kept(Kept(all, orig, before), before, after) == Kept(all, orig, after)
  {
    hide Fronts;
    hide Dropped;
    DroppedNext(orig, before, after);
  }

  lemma ShortenedFronts(lists: Lists, who: set<Address>)
    ensures Fronts(Shortened(lists, who), lists)
  {}

  // ---------- the pool ----------

  predicate Contiguous(list: seq<Tx>)
  {
    forall i | 0 <= i < |list| :: list[i].nonce == list[0].nonce + i
  }

  /** The account's next nonce follows its pending transactions. */
  predicate NonceFollows(list: seq<Tx>, nonces: map<Address, nat>, a: Address)
  {
    |list| > 0 ==> a in nonces && nonces[a] == list[0].nonce + |list|
  }

  class Pool {
    const globalSlots: nat
    const accountSlots: nat
    var pending: Lists
    var locals: set<Address>
    /** Every transaction of the pool. */
    var all: set<Tx>
    var pendingNonces: map<Address, nat>

    ghost predicate Valid()
      reads this
    {
      && (forall a {:trigger pending[a]} | a in pending ::
          Contiguous(pending[a]) && NonceFollows(pending[a], pendingNonces, a))
      && (forall a, t {:trigger t in pending[a]} | a in pending && t in pending[a] :: t in all)
      && (forall a, b, t {:trigger t in pending[a], t in pending[b]}
          | a in pending && b in pending && t in pending[a] && t in pending[b] :: a == b)
    }

    constructor (globalSlots: nat, accountSlots: nat)
      ensures Valid() && pending == map[] && all == {}
    {
      this.globalSlots := globalSlots;
      this.accountSlots := accountSlots;
      pending, locals, all, pendingNonces := map[], {}, {}, map[];
    }

    method SetIfLower(a: Address, nonce: nat)
      modifies this`pendingNonces
      ensures pendingNonces == if a in old(pendingNonces) && old(pendingNonces)[a] <= nonce then old(pendingNonces)
                               else old(pendingNonces)[a := nonce]
    {
      if a !in pendingNonces || nonce < pendingNonces[a] {
        pendingNonces := pendingNonces[a := nonce];
      }
    }

    /** Drops the transaction of an account with the highest nonce. */
    method DropLast(a: Address)
      requires Valid() && a in pending && |pending[a]| > 0
      modifies this`pending, this`all, this`pendingNonces
      ensures Valid()
      ensures pending == old(pending)[a := old(pending)[a][..|old(pending)[a]| - 1]]
      ensures all == old(all) - {old(pending)[a][|old(pending)[a]| - 1]}
    {
      var list := pending[a];
      var n := |list| - 1;
      var tx := list[n];
      assert forall i | 0 <= i < n :: list[..n][i] == list[i] && list[i] != tx;
      pending := pending[a := list[..n]];
      all := all - {tx};
      SetIfLower(a, tx.nonce);
      assert forall t | t in list[..n] :: t in list;
      assert tx in list;
    }

    /** Drops one transaction of each listed account. */
    method DropRound(who: seq<Address>, count: nat) returns (left: nat)
      requires Valid() && count == Total(pending)
      requires forall i | 0 <= i < |who| :: who[i] in pending && |pending[who[i]]| > 0
      requires Distinct(who)
      modifies this`pending, this`all, this`pendingNonces
      ensures Valid() && left == Total(pending)
      ensures pending == Shortened(old(pending), Elements(who))
      ensures all == Kept(old(all), old(pending), pending)
      ensures who != [] ==> left < count
    {
      hide Valid;
      hide Total;
      hide Kept;
      hide Shortened;
      hide Elements;
      ghost var before, all0 := pending, all;
      left := count;
      NoneDropped(before);
      assert who[..0] == [];
      for i := 0 to |who|
        invariant Valid() && left == Total(pending)
        invariant pending == Shortened(before, Elements(who[..i]))
        invariant all == Kept(all0, before, pending)
        invariant i > 0 ==> left < count
      {
        RoundStep(all0, before, who, i);
        DropLast(who[i]);
        left := left - 1;
      }
      assert who[..|who|] == who;
    }

    /** The number of pending transactions. */
    method CountPending() returns (count: nat)
      ensures count == Total(pending)
    {
      count := 0;
      var rest := pending.Keys;
      while rest != {}
        invariant rest <= pending.Keys && count + TotalOf(pending, rest) == Total(pending)
        decreases rest
      {
        var a :| a in rest;
        TotalRemove(pending, rest, a);
        count := count + |pending[a]|;
        rest := rest - {a};
      }
    }

    /** The account with the most transactions; which one of several is not determined. */
    method PopLargest(spammers: set<Address>) returns (a: Address)
      requires spammers != {} && spammers <= pending.Keys
      ensures a in spammers && forall b | b in spammers :: |pending[b]| <= |pending[a]|
    {
      a :| a in spammers;
      var rest := spammers - {a};
      while rest != {}
        invariant a in spammers && rest <= spammers
        invariant forall b | b in spammers && b !in rest :: |pending[b]| <= |pending[a]|
        decreases rest
      {
        var b :| b in rest;
        if |pending[b]| > |pending[a]| {
          a := b;
        }
        rest := rest - {b};
      }
    }

    /** The lists are the original ones cut to a level, and nothing was dropped without need. */
    ghost predicate Levelled(orig: Lists, who: set<Address>, level: nat, count: nat)
      reads this
    {
      && pending == Cut(orig, who, level) && count == Total(pending) && level >= accountSlots
      && (pending == orig || Total(Cut(orig, who, level + 1)) > globalSlots)
    }

    method LowerOnce(top: seq<Address>, ghost floor: nat, count: nat, ghost orig: Lists, ghost who: set<Address>,
                     ghost level: nat)
      returns (left: nat)
      requires Valid() && Levelled(orig, who, level, count) && count > globalSlots
      requires top != [] && Distinct(top)
      requires Tops(orig, who, Elements(top), level, floor) && accountSlots <= floor < level
               && AllHave(pending, top, level)
      modifies this`pending, this`all, this`pendingNonces
      ensures Valid() && Levelled(orig, who, level - 1, left) && left < count
      ensures Tops(orig, who, Elements(top), level - 1, floor) && AllHave(pending, top, level - 1)
      ensures Fronts(pending, old(pending)) && all == Kept(old(all), old(pending), pending)
    {
      hide Valid;
      hide Total;
      hide Kept;
      hide Shortened;
      hide Cut;
      hide Elements;
      hide Fronts;
      hide Tops;
      LevelStep(orig, who, top, level, floor);
      left := DropRound(top, count);
      TopLength(orig, who, top, level - 1, floor);
    }

    /** Drops one transaction of each listed account at a time, until the pool is within its limit
        or the accounts are down to the floor. */
    method LowerTo(top: seq<Address>, floor: nat, count: nat, ghost orig: Lists, ghost who: set<Address>,
                   ghost level: nat)
      returns (left: nat, ghost low: nat)
      requires Valid() && Levelled(orig, who, level, count)
      requires top != [] && Distinct(top)
      requires Tops(orig, who, Elements(top), level, floor) && accountSlots <= floor <= level
      modifies this`pending, this`all, this`pendingNonces
      ensures Valid() && Levelled(orig, who, low, left) && floor <= low <= level
      ensures left <= globalSlots || low == floor
      ensures Fronts(pending, old(pending)) && all == Kept(old(all), old(pending), pending)
    {
      hide Valid;
      hide Total;
      hide Kept;
      hide Shortened;
      hide Cut;
      hide Elements;
      hide Fronts;
      hide Tops;
      ghost var before, all0 := pending, all;
      left, low := count, level;
      NoneDropped(before);
      TopLength(orig, who, top, low, floor);
      while left > globalSlots && |pending[top[|top| - 1]]| > floor
        invariant Valid() && Levelled(orig, who, low, left) && floor <= low <= level
        invariant Fronts(pending, before) && all == Kept(all0, before, pending)
        invariant Tops(orig, who, Elements(top), low, floor)
        invariant AllHave(pending, top, low)
        decreases left
      {
        ghost var now := pending;
        left := LowerOnce(top, floor, left, orig, who, low);
        KeptNext(all0, before, now, pending);
        low := low - 1;
      }
    }

    /** Brings the pool within its limit as far as the guaranteed slots allow. */
    method TruncatePending() returns (ghost level: nat)
      requires Valid()
      modifies this`pending, this`all, this`pendingNonces
      ensures Valid()
      ensures pending == Cut(old(pending), Spammers(old(pending), locals, accountSlots), level)
      ensures Fair(old(pending), Spammers(old(pending), locals, accountSlots), accountSlots, globalSlots, level)
      ensures all == Kept(old(all), old(pending), pending)
    {
      hide Valid;
      hide Kept;
      hide Total;
      hide Cut;
      hide Elements;
      hide Fronts;
      hide Tops;
      hide Distinct;
      ghost var orig, who := pending, Spammers(pending, locals, accountSlots);
      ghost var all0 := all;
      NoneDropped(orig);
      level := accountSlots + Longest(orig);
      Uncut(orig, who, level);
      var count := CountPending();
      if count <= globalSlots {
        return;
      }
      var offenders;
      count, offenders, level := Equalize(count, orig, level);
      if count > globalSlots {
        if |offenders| > 0 {
          ghost var now := pending;
          count, level := LowerTo(offenders, accountSlots, count, orig, who, level);
          KeptNext(all0, orig, now, pending);
        } else {
          level := accountSlots;
          Uncut(orig, who, level);
        }
      }
    }

    /** Takes the largest transactors one by one, cutting those taken before down to each new one. */
    method Equalize(total: nat, ghost orig: Lists, ghost start: nat)
      returns (count: nat, offenders: seq<Address>, ghost level: nat)
      requires Valid() && pending == orig && Levelled(orig, Spammers(orig, locals, accountSlots), start, total)
      requires total > globalSlots && forall a | a in orig :: |orig[a]| <= start
      modifies this`pending, this`all, this`pendingNonces
      ensures Valid() && Levelled(orig, Spammers(orig, locals, accountSlots), level, count)
      ensures Distinct(offenders)
      ensures count > globalSlots ==>
                && Elements(offenders) == Spammers(orig, locals, accountSlots)
                && Tops(orig, Elements(offenders), Elements(offenders), level, accountSlots)
                && (offenders == [] ==> pending == orig)
      ensures Fronts(pending, orig) && all == Kept(old(all), orig, pending)
    {
      hide Valid;
      hide Kept;
      hide Total;
      hide Cut;
      hide Elements;
      hide Fronts;
      hide Tops;
      hide Taken;
      hide Distinct;
      ghost var who := Spammers(orig, locals, accountSlots);
      ghost var all0 := all;
      var spammers := Spammers(pending, locals, accountSlots);
      count, offenders, level := total, [], start;
      NoneDropped(orig);
      NoneTaken(orig, who, level);
      while count > globalSlots && spammers != {}
        invariant Valid() && Levelled(orig, who, level, count)
        invariant Fronts(pending, orig) && all == Kept(all0, orig, pending)
        invariant Taken(who, offenders, spammers)
        invariant count > globalSlots ==> Tops(orig, who, Elements(offenders), level, level)
        invariant offenders == [] ==> pending == orig && count > globalSlots
        decreases spammers
      {
        WaitingAreLow(orig, who, offenders, spammers, level);
        var offender := PopLargest(spammers);
        var threshold := |pending[offender]|;
        TakesNext(orig, who, offenders, spammers, offender, level);
        AreDistinct(who, offenders, spammers);
        if |offenders| > 0 {
          ghost var now := pending;
          count, level := LowerTo(offenders, threshold, count, orig, who, level);
          KeptNext(all0, orig, now, pending);
        } else {
          level := threshold;
          Uncut(orig, who, level);
        }
        offenders := offenders + [offender];
        spammers := spammers - {offender};
      }
      AreDistinct(who, offenders, spammers);
      if count > globalSlots {
        AllTaken(orig, who, offenders, level, accountSlots);
      }
    }
  }

  /** The accounts transactions may be dropped from. */
  function Spammers(lists: Lists, locals: set<Address>, accountSlots: nat): (who: set<Address>)
    ensures who <= lists.Keys
    ensures forall a | a in who :: |lists[a]| > accountSlots
  {
    set a | a in lists && a !in locals && |lists[a]| > accountSlots
  }

  ghost function Longest(lists: Lists): (n: nat)
    ensures forall a | a in lists :: |lists[a]| <= n
  {
    LongestOf(lists, lists.Keys)
  }

  ghost function LongestOf(lists: Lists, accounts: set<Address>): (n: nat)
    requires accounts <= lists.Keys
    ensures forall a | a in accounts :: |lists[a]| <= n
  {
    if accounts == {} then 0
    else
      var a :| a in accounts;
      var rest := LongestOf(lists, accounts - {a});
      assert accounts == accounts - {a} + {a};
      if |lists[a]| > rest then |lists[a]| else rest
  }

  lemma Uncut(lists: Lists, who: set<Address>, level: nat)
    requires forall a | a in who && a in lists :: |lists[a]| <= level
    ensures Cut(lists, who, level) == lists
  {}

  predicate Distinct(who: seq<Address>)
  {
    forall i, j | 0 <= i < j < |who| :: who[i] != who[j]
  }

  /** The accounts are split into those taken and those waiting. */
  ghost predicate Taken(who: set<Address>, offenders: seq<Address>, spammers: set<Address>)
  {
    Elements(offenders) + spammers == who && Elements(offenders) !! spammers && Distinct(offenders)
  }

  lemma AllTaken(lists: Lists, who: set<Address>, offenders: seq<Address>, level: nat, floor: nat)
    requires Taken(who, offenders, {}) && Tops(lists, who, Elements(offenders), level, level)
    ensures Elements(offenders) == who && Tops(lists, who, who, level, floor)
  {}

  lemma WaitingAreLow(lists: Lists, who: set<Address>, offenders: seq<Address>, spammers: set<Address>, level: nat)
    requires Taken(who, offenders, spammers) && Tops(lists, who, Elements(offenders), level, level)
    ensures spammers <= who <= lists.Keys && (forall a | a in spammers :: |lists[a]| <= level)
    ensures forall a | a in spammers :: a in Cut(lists, who, level) && Cut(lists, who, level)[a] == lists[a]
  {}

  lemma AreDistinct(who: set<Address>, offenders: seq<Address>, spammers: set<Address>)
    requires Taken(who, offenders, spammers)
    ensures Distinct(offenders)
  {}

  lemma NoneTaken(lists: Lists, who: set<Address>, level: nat)
    requires who <= lists.Keys && forall a | a in who :: |lists[a]| <= level
    ensures Taken(who, [], who) && Tops(lists, who, Elements([]), level, level)
  {}

  /** What taking the next largest account means for the levels. */
  lemma TakesNext(lists: Lists, who: set<Address>, offenders: seq<Address>, spammers: set<Address>, a: Address,
                  level: nat)
    requires Tops(lists, who, Elements(offenders), level, level)
    requires Taken(who, offenders, spammers)
    requires a in spammers && forall b | b in spammers :: |lists[b]| <= |lists[a]|
    ensures |lists[a]| <= level && Tops(lists, who, Elements(offenders), level, |lists[a]|)
    ensures Taken(who, offenders + [a], spammers - {a})
    ensures Tops(lists, who, Elements(offenders + [a]), |lists[a]|, |lists[a]|)
  {
    var more := offenders + [a];
    ElementsSnoc(more, |offenders|);
    assert more[..|offenders|] == offenders && more[..|offenders| + 1] == more;
    assert forall i | 0 <= i < |offenders| :: offenders[i] in Elements(offenders);
  }

  /** The accounts in `top` reach the level, the others of `who` do not exceed the floor. */
  ghost predicate Tops(lists: Lists, who: set<Address>, top: set<Address>, level: nat, floor: nat)
  {
    && top <= who <= lists.Keys
    && (forall a | a in top :: |lists[a]| >= level)
    && (forall a | a in who && a !in top :: |lists[a]| <= floor)
  }

  predicate AllHave(lists: Lists, top: seq<Address>, level: nat)
  {
    forall i | 0 <= i < |top| :: top[i] in lists && |lists[top[i]]| == level
  }

  lemma TopLength(lists: Lists, who: set<Address>, top: seq<Address>, level: nat, floor: nat)
    requires Tops(lists, who, Elements(top), level, floor)
    ensures AllHave(Cut(lists, who, level), top, level)
  {
    assert forall i | 0 <= i < |top| :: top[i] in Elements(top);
  }

  /** Above the floor a round of drops lowers the level by one. */
  lemma LevelStep(lists: Lists, who: set<Address>, top: seq<Address>, level: nat, floor: nat)
    requires Tops(lists, who, Elements(top), level, floor) && floor < level
    ensures Tops(lists, who, Elements(top), level - 1, floor)
    ensures Shortened(Cut(lists, who, level), Elements(top)) == Cut(lists, who, level - 1)
    ensures Fronts(Shortened(Cut(lists, who, level), Elements(top)), Cut(lists, who, level))
  {
    hide Cut;
    hide Shortened;
    assert Elements(top) == AtLevel(lists, who, level);
    CutStep(lists, who, level, Elements(top));
    ShortenedFronts(Cut(lists, who, level), Elements(top));
  }

  ghost function Elements(who: seq<Address>): (all: set<Address>)
  {
    set i | 0 <= i < |who| :: who[i]
  }

  lemma ElementsSnoc(who: seq<Address>, i: nat)
    requires i < |who|
    ensures Elements(who[..i + 1]) == Elements(who[..i]) + {who[i]}
  {
    assert forall j | 0 <= j < i :: who[..i][j] == who[..i + 1][j];
    assert who[..i + 1][i] == who[i];
  }

  lemma RoundStep(all: set<Tx>, before: Lists, who: seq<Address>, i: nat)
    requires i < |who| && who[i] in before && |before[who[i]]| > 0
    requires Distinct(who)
    ensures var a, now := who[i], Shortened(before, Elements(who[..i]));
            var next := Shortened(before, Elements(who[..i + 1]));
            && a in now && |now[a]| > 0 && next == now[a := now[a][..|now[a]| - 1]]
            && Total(next) == Total(now) - 1
            && Kept(all, before, next) == Kept(all, before, now) - {now[a][|now[a]| - 1]}
  {
    hide Total;
    hide Dropped;
    var a, now, next := who[i], Shortened(before, Elements(who[..i])), Shortened(before, Elements(who[..i + 1]));
    ElementsSnoc(who, i);
    assert a !in Elements(who[..i]);
    var list := now[a][..|now[a]| - 1];
    assert next == now[a := list];
    TotalUpdate(now, a, list);
    ShortenedFronts(before, Elements(who[..i]));
    DroppedOne(now, a);
    DroppedNext(before, now, next);
  }

  lemma NoneDropped(lists: Lists)
    ensures Dropped(lists, lists) == {} && Fronts(lists, lists)
    ensures forall all :: Kept(all, lists, lists) == all
    ensures Shortened(lists, Elements([])) == lists
  {}

  lemma DroppedOne(lists: Lists, a: Address)
    requires a in lists && |lists[a]| > 0
    ensures var after := lists[a := lists[a][..|lists[a]| - 1]];
            Fronts(after, lists) && Dropped(lists, after) == {lists[a][|lists[a]| - 1]}
  {
    var after := lists[a := lists[a][..|lists[a]| - 1]];
    forall t | t in Dropped(lists, after)
      ensures t == lists[a][|lists[a]| - 1]
    {
      var b, i :| b in lists && b in after && |after[b]| <= i < |lists[b]| && t == lists[b][i];
    }
    var i := |lists[a]| - 1;
    assert a in lists && a in after && |after[a]| <= i < |lists[a]|;
  }
}
