/**
 * The listing pipeline of `list_assignments`: split the items into upcoming
 * (deadline not before now) and past, sort each part by deadline with a
 * stable sort, put the upcoming part first, and cut with Python's `[:limit]`.
 */
module Listing {
  import opened AssignmentManager

  /** One `(name, record)` item of the dict. */
  type Entry = (string, Assignment)

  /** The items due at or after `now`, in iteration order. */
  function Upcoming(s: seq<Entry>, now: int): (r: seq<Entry>)
    ensures forall e :: e in r ==> e in s && e.1.deadline >= now
  {
    if s == [] then []
    else Upcoming(s[..|s| - 1], now) + (if s[|s| - 1].1.deadline >= now then [s[|s| - 1]] else [])
  }

  /** The items due before `now`, in iteration order. */
  function Past(s: seq<Entry>, now: int): (r: seq<Entry>)
    ensures forall e :: e in r ==> e in s && e.1.deadline < now
  {
    if s == [] then []
    else Past(s[..|s| - 1], now) + (if s[|s| - 1].1.deadline < now then [s[|s| - 1]] else [])
  }

  /** Every item lands in exactly one part, and the two parts together are the items. */
  lemma {:induction false} PartitionIsPermutation(s: seq<Entry>, now: int)
    ensures multiset(Upcoming(s, now)) + multiset(Past(s, now)) == multiset(s)
  {
    if s != [] {
      var init, last := s[..|s| - 1], s[|s| - 1];
      PartitionIsPermutation(init, now);
      assert s == init + [last];
    }
  }

  /** An item is upcoming exactly when it is stored and not yet due, and past exactly when it is stored and overdue. */
  lemma PartitionMembership(s: seq<Entry>, now: int, e: Entry)
    ensures e in Upcoming(s, now) <==> e in s && e.1.deadline >= now
    ensures e in Past(s, now) <==> e in s && e.1.deadline < now
  {
    PartitionIsPermutation(s, now);
    if e in s {
      assert e in multiset(s);
    }
  }

  predicate SortedByDeadline(s: seq<Entry>) {
    forall i, j :: 0 <= i < j < |s| ==> s[i].1.deadline <= s[j].1.deadline
  }

  /** Places `x` before the first item of `s` that is due no earlier than `x`. */
  function Insert(x: Entry, s: seq<Entry>): (r: seq<Entry>)
    ensures multiset(r) == multiset(s) + multiset{x}
    ensures forall e :: e in r ==> e == x || e in s
    ensures SortedByDeadline(s) ==> SortedByDeadline(r)
  {
    if s == [] || x.1.deadline <= s[0].1.deadline then
      assert SortedByDeadline(s) ==> SortedByDeadline([x] + s) by {
        if SortedByDeadline(s) && s != [] { SortedCons(x, s); }
      }
      [x] + s
    else
      var rest := Insert(x, s[1..]);
      assert s == [s[0]] + s[1..];
      assert SortedByDeadline(s) ==> SortedByDeadline([s[0]] + rest) by {
        if SortedByDeadline(s) {
          assert SortedByDeadline(s[1..]);
          forall e | e in rest ensures s[0].1.deadline <= e.1.deadline {
            if e != x { assert e in s[1..]; }
          }
          SortedCons(s[0], rest);
        }
      }
      [s[0]] + rest
  }

  /** An item due no later than everything in a sorted list may go at its front. */
  lemma SortedCons(h: Entry, rest: seq<Entry>)
    requires SortedByDeadline(rest)
    requires forall e :: e in rest ==> h.1.deadline <= e.1.deadline
    ensures SortedByDeadline([h] + rest)
  {
    forall i, j | 0 <= i < j < |rest| + 1 ensures ([h] + rest)[i].1.deadline <= ([h] + rest)[j].1.deadline {
      assert ([h] + rest)[j] == rest[j - 1];
      if i == 0 { assert rest[j - 1] in rest; } else { assert ([h] + rest)[i] == rest[i - 1]; }
    }
  }

  /**
   * `list.sort(key=deadline)`: an insertion sort that puts each item before
   * the later items sharing its deadline, so ties keep iteration order.
   */
  function SortByDeadline(s: seq<Entry>): (r: seq<Entry>)
    ensures SortedByDeadline(r)
    ensures multiset(r) == multiset(s)
  {
    if s == [] then []
    else
      assert s == [s[0]] + s[1..];
      Insert(s[0], SortByDeadline(s[1..]))
  }

  /** The items due exactly at `t`, in order: what a stable sort must leave untouched. */
  function WithDeadline(s: seq<Entry>, t: int): (r: seq<Entry>) {
    if s == [] then [] else (if s[0].1.deadline == t then [s[0]] else []) + WithDeadline(s[1..], t)
  }

  lemma {:induction false} InsertStable(x: Entry, s: seq<Entry>, t: int)
    requires SortedByDeadline(s)
    ensures WithDeadline(Insert(x, s), t) == (if x.1.deadline == t then [x] else []) + WithDeadline(s, t)
  {
    if s == [] || x.1.deadline <= s[0].1.deadline {
      assert ([x] + s)[0] == x && ([x] + s)[1..] == s;
    } else {
      var rest := Insert(x, s[1..]);
      assert SortedByDeadline(s[1..]);
      InsertStable(x, s[1..], t);
      var r := [s[0]] + rest;
      assert r[0] == s[0] && r[1..] == rest;
      var head := if s[0].1.deadline == t then [s[0]] else [];
      var mid := if x.1.deadline == t then [x] else [];
      assert WithDeadline(r, t) == head + (mid + WithDeadline(s[1..], t));
      assert WithDeadline(s, t) == head + WithDeadline(s[1..], t);
      assert head == [] || mid == [];
    }
  }

  /** The sort is stable: for every deadline, the items due then keep their relative order. */
  lemma {:induction false} SortStable(s: seq<Entry>, t: int)
    ensures WithDeadline(SortByDeadline(s), t) == WithDeadline(s, t)
  {
    if s != [] {
      SortStable(s[1..], t);
      InsertStable(s[0], SortByDeadline(s[1..]), t);
    }
  }

  /** `s[:limit]`, including Python's reading of a negative limit as "all but the last -limit". */
  function Take(s: seq<Entry>, limit: int): (r: seq<Entry>)
    ensures |r| <= |s| && r == s[..|r|]
    ensures 0 <= limit ==> |r| <= limit && (|r| == limit || r == s)
    ensures limit < 0 ==> |r| + -limit == |s| || (r == [] && |s| <= -limit)
  {
    if 0 <= limit then (if limit < |s| then s[..limit] else s)
    else if |s| + limit > 0 then s[..|s| + limit] else []
  }

  /** A limit of zero shows nothing, and a negative limit smaller in size than the list still shows something. */
  lemma TakeEdges(s: seq<Entry>, limit: int)
    ensures Take(s, 0) == []
    ensures -|s| < limit < 0 ==> Take(s, limit) != []
  {
  }

  /** The list before the cut: sorted upcoming items, then, if asked for, sorted past items. */
  function Ordered(s: seq<Entry>, now: int, showAll: bool): (r: seq<Entry>) {
    SortByDeadline(Upcoming(s, now)) + (if showAll then SortByDeadline(Past(s, now)) else [])
  }

  /** The items due at `t` in two lists placed one after the other. */
  lemma {:induction false} WithDeadlineAppend(a: seq<Entry>, b: seq<Entry>, t: int)
    ensures WithDeadline(a + b, t) == WithDeadline(a, t) + WithDeadline(b, t)
  {
    if a == [] {
      assert a + b == b;
    } else {
      assert (a + b)[0] == a[0] && (a + b)[1..] == a[1..] + b;
      WithDeadlineAppend(a[1..], b, t);
    }
  }

  /** The upcoming part keeps the iteration order: the items due at any `t >= now` are exactly the stored ones, in order. */
  lemma {:induction false} UpcomingKeepsOrder(s: seq<Entry>, now: int, t: int)
    ensures WithDeadline(Upcoming(s, now), t) == if t >= now then WithDeadline(s, t) else []
  {
    if s != [] {
      var init, last := s[..|s| - 1], s[|s| - 1];
      assert s == init + [last];
      UpcomingKeepsOrder(init, now, t);
      WithDeadlineAppend(Upcoming(init, now), if last.1.deadline >= now then [last] else [], t);
      WithDeadlineAppend(init, [last], t);
    }
  }

  /** The past part keeps the iteration order: the items due at any `t < now` are exactly the stored ones, in order. */
  lemma {:induction false} PastKeepsOrder(s: seq<Entry>, now: int, t: int)
    ensures WithDeadline(Past(s, now), t) == if t < now then WithDeadline(s, t) else []
  {
    if s != [] {
      var init, last := s[..|s| - 1], s[|s| - 1];
      assert s == init + [last];
      PastKeepsOrder(init, now, t);
      WithDeadlineAppend(Past(init, now), if last.1.deadline < now then [last] else [], t);
      WithDeadlineAppend(init, [last], t);
    }
  }

  /**
   * Items that share a deadline are listed in the dict's iteration order:
   * all of them when the deadline is upcoming or `showAll` is set, none otherwise.
   */
  lemma OrderedTiesKeepDictOrder(s: seq<Entry>, now: int, showAll: bool, t: int)
    ensures WithDeadline(Ordered(s, now, showAll), t)
         == if t >= now || showAll then WithDeadline(s, t) else []
  {
    var up, past := Upcoming(s, now), Past(s, now);
    WithDeadlineAppend(SortByDeadline(up), if showAll then SortByDeadline(past) else [], t);
    SortStable(up, t);
    SortStable(past, t);
    UpcomingKeepsOrder(s, now, t);
    PastKeepsOrder(s, now, t);
  }

  lemma SortedLength(s: seq<Entry>)
    ensures |SortByDeadline(s)| == |s|
  {
    assert |multiset(SortByDeadline(s))| == |multiset(s)|;
  }

  lemma SortedMembers(s: seq<Entry>, e: Entry)
    ensures e in SortByDeadline(s) <==> e in s
  {
    assert e in SortByDeadline(s) <==> e in multiset(SortByDeadline(s));
  }

  /** The list before the cut is the sorted upcoming part followed by the sorted past part or nothing. */
  lemma OrderedSplit(s: seq<Entry>, now: int, showAll: bool)
    ensures var o, u := Ordered(s, now, showAll), |Upcoming(s, now)|;
      && u <= |o|
      && o[..u] == SortByDeadline(Upcoming(s, now))
      && o[u..] == (if showAll then SortByDeadline(Past(s, now)) else [])
  {
    SortedLength(Upcoming(s, now));
  }

  /** With `showAll` every stored item is listed exactly once; otherwise exactly the upcoming ones are. */
  lemma OrderedIsPermutation(s: seq<Entry>, now: int, showAll: bool)
    ensures multiset(Ordered(s, now, showAll))
         == if showAll then multiset(s) else multiset(Upcoming(s, now))
  {
    PartitionIsPermutation(s, now);
  }

  /** Upcoming items come first and past items after them. */
  lemma OrderedUpcomingFirst(s: seq<Entry>, now: int, showAll: bool)
    ensures var o, u := Ordered(s, now, showAll), |Upcoming(s, now)|;
      && u <= |o|
      && (forall i :: 0 <= i < u ==> o[i].1.deadline >= now)
      && (forall i :: u <= i < |o| ==> o[i].1.deadline < now)
  {
    var up := SortByDeadline(Upcoming(s, now));
    var rest := if showAll then SortByDeadline(Past(s, now)) else [];
    var o := Ordered(s, now, showAll);
    assert o == up + rest;
    SortedLength(Upcoming(s, now));
    PartDeadlines(Upcoming(s, now), now, true);
    if showAll {
      PartDeadlines(Past(s, now), now, false);
    }
    AppendDeadlines(up, rest, now);
  }

  lemma AppendDeadlines(up: seq<Entry>, rest: seq<Entry>, now: int)
    requires forall i :: 0 <= i < |up| ==> up[i].1.deadline >= now
    requires forall i :: 0 <= i < |rest| ==> rest[i].1.deadline < now
    ensures forall i :: 0 <= i < |up| ==> (up + rest)[i].1.deadline >= now
    ensures forall i :: |up| <= i < |up + rest| ==> (up + rest)[i].1.deadline < now
  {
    forall i | |up| <= i < |up + rest| ensures (up + rest)[i].1.deadline < now {
      assert (up + rest)[i] == rest[i - |up|];
    }
  }

  /** Sorting a part whose items are all (not) yet due keeps that property, position by position. */
  lemma PartDeadlines(p: seq<Entry>, now: int, upcoming: bool)
    requires forall e :: e in p ==> (e.1.deadline >= now <==> upcoming)
    ensures forall i :: 0 <= i < |SortByDeadline(p)| ==> (SortByDeadline(p)[i].1.deadline >= now <==> upcoming)
  {
    var r := SortByDeadline(p);
    forall i | 0 <= i < |r| ensures r[i].1.deadline >= now <==> upcoming {
      SortedMembers(p, r[i]);
    }
  }

  /** Each of the two parts is in deadline order. */
  lemma OrderedPartsSorted(s: seq<Entry>, now: int, showAll: bool)
    ensures var o, u := Ordered(s, now, showAll), |Upcoming(s, now)|;
      u <= |o| && SortedByDeadline(o[..u]) && SortedByDeadline(o[u..])
  {
    OrderedSplit(s, now, showAll);
  }

  /** The list before the cut is empty exactly when the store is (`showAll`) or when nothing is upcoming. */
  lemma OrderedEmpty(s: seq<Entry>, now: int, showAll: bool)
    ensures Ordered(s, now, showAll) == []
        <==> if showAll then s == [] else forall e :: e in s ==> e.1.deadline < now
  {
    var o := Ordered(s, now, showAll);
    OrderedIsPermutation(s, now, showAll);
    assert o == [] <==> multiset(o) == multiset{};
    if showAll {
      assert s == [] <==> multiset(s) == multiset{};
    } else {
      var up := Upcoming(s, now);
      assert up == [] <==> multiset(up) == multiset{};
      if up != [] {
        assert up[0] in up;
      } else {
        forall e | e in s ensures e.1.deadline < now {
          PartitionMembership(s, now, e);
        }
      }
    }
  }
}
