// The scheduling code in syscalls.c and the clock handler walks a queue by popping `size`
// PCBs and re-adding the ones that stay. This module holds what those sweeps have in common:
// a value snapshot of the PCB fields they read and write, and selection of a sequence by a
// mask (which PCBs stay, which move on), with the facts that a selection keeps order and that
// a mask and its negation split a sequence.

module Sweeps {
  import opened Defs
  import opened Process
  import opened Queues

  /** The PCB fields the sweeps read or write, as a value. */
  datatype PcbView = PcbView(pid: int, ppid: int, numChildren: int, exitCode: int,
                             blockedCode: int, delayClock: int)

  function ViewOf(p: Pcb): (v: PcbView)
    reads p
  {
    PcbView(p.pid, p.ppid, p.numChildren, p.exitCode, p.blockedCode, p.delayClock)
  }

  /** The views of `ps`, position by position. */
  function Views(ps: seq<Pcb>): (vs: seq<PcbView>)
    reads ps
    ensures |vs| == |ps| && forall j :: 0 <= j < |ps| ==> vs[j] == ViewOf(ps[j])
  {
    seq(|ps|, j requires 0 <= j < |ps| reads ps => ViewOf(ps[j]))
  }

  /** The elements among the first `n` of `s` whose mask entry is true, in their original order. */
  function Select<T>(s: seq<T>, m: seq<bool>, n: nat): seq<T>
    requires n <= |s| && |m| == |s|
  {
    if n == 0 then []
    else Select(s, m, n - 1) + (if m[n - 1] then [s[n - 1]] else [])
  }

  function Negate(m: seq<bool>): (n: seq<bool>)
    ensures |n| == |m| && forall j :: 0 <= j < |m| ==> n[j] == !m[j]
  {
    seq(|m|, j requires 0 <= j < |m| => !m[j])
  }

  /**
   * A mask and its negation split a sequence: every element lands in exactly one of the two
   * selections, so together they hold the same elements, counted with multiplicity.
   */
  lemma {:induction false} SelectSplits<T>(s: seq<T>, m: seq<bool>, k: seq<bool>, n: nat)
    requires n <= |s| && |m| == |s| == |k| && forall j :: 0 <= j < |m| ==> k[j] == !m[j]
    ensures multiset(Select(s, m, n)) + multiset(Select(s, k, n)) == multiset(s[..n])
  {
    if n == 0 {
      assert s[..n] == [];
    } else {
      SelectSplits(s, m, k, n - 1);
      SelectSplitsStep(s, m, k, n);
    }
  }

  /** The inductive step of SelectSplits: element `n - 1` joins exactly one selection. */
  lemma SelectSplitsStep<T>(s: seq<T>, m: seq<bool>, k: seq<bool>, n: nat)
    requires 0 < n <= |s| == |m| == |k| && k[n - 1] == !m[n - 1]
    requires multiset(Select(s, m, n - 1)) + multiset(Select(s, k, n - 1)) == multiset(s[..n - 1])
    ensures multiset(Select(s, m, n)) + multiset(Select(s, k, n)) == multiset(s[..n])
  {
    var x := s[n - 1];
    assert s[..n] == s[..n - 1] + [x];
    if m[n - 1] {
      assert Select(s, m, n) == Select(s, m, n - 1) + [x];
      assert Select(s, k, n) == Select(s, k, n - 1);
    } else {
      assert Select(s, m, n) == Select(s, m, n - 1);
      assert Select(s, k, n) == Select(s, k, n - 1) + [x];
    }
  }

  /** The two selections of a mask and its negation are together as long as the part they split. */
  lemma {:induction false} SelectSplitsLength<T>(s: seq<T>, m: seq<bool>, k: seq<bool>, n: nat)
    requires n <= |s| && |m| == |s| == |k| && forall j :: 0 <= j < |m| ==> k[j] == !m[j]
    ensures |Select(s, m, n)| + |Select(s, k, n)| == n
  {
    if n > 0 {
      SelectSplitsLength(s, m, k, n - 1);
    }
  }

  /** An element is selected exactly when some position before `n` holding it is marked. */
  lemma {:induction false} SelectMember<T>(s: seq<T>, m: seq<bool>, n: nat, x: T)
    requires n <= |s| && |m| == |s|
    ensures x in Select(s, m, n) <==> exists j :: 0 <= j < n && m[j] && s[j] == x
  {
    if n > 0 {
      SelectMember(s, m, n - 1, x);
    }
  }

  /** A mask that is true everywhere selects the whole sequence. */
  lemma {:induction false} SelectAll<T>(s: seq<T>, m: seq<bool>, n: nat)
    requires n <= |s| && |m| == |s| && forall j :: 0 <= j < n ==> m[j]
    ensures Select(s, m, n) == s[..n]
  {
    if n > 0 {
      SelectAll(s, m, n - 1);
      assert s[..n] == s[..n - 1] + [s[n - 1]];
    }
  }

  // The rounds of a sweep. A queue of `ps` swept in place holds, after round `i`, the
  // unvisited `ps[i..]` ahead of what was re-added so far.

  /** Pop the head of a queue that holds `ps` rotated by `i`. */
  method PopRotated(q: Queue, ghost ps: seq<Pcb>, i: nat) returns (p: Pcb)
    requires q.Valid() && i < |ps| && q.items == ps[i..] + ps[..i]
    modifies q
    ensures q.Valid() && p == ps[i] && q.items == ps[i + 1..] + ps[..i]
  {
    assert ps[i..] + ps[..i] == [ps[i]] + (ps[i + 1..] + ps[..i]);
    p := q.Pop();
  }

  /** Re-add the PCB just popped, so the queue holds `ps` rotated by `i + 1`. */
  method AddRotated(q: Queue, ghost ps: seq<Pcb>, i: nat, p: Pcb)
    requires q.Valid() && i < |ps| && p == ps[i] && q.items == ps[i + 1..] + ps[..i]
    modifies q
    ensures q.Valid() && q.items == ps[i + 1..] + ps[..i + 1]
  {
    assert ps[..i + 1] == ps[..i] + [ps[i]];
    q.Add(p, p.pid);
  }

  /** Pop the head of a queue that holds the unvisited `ps[i..]` ahead of `kept`. */
  method PopVisit(q: Queue, ghost ps: seq<Pcb>, ghost kept: seq<Pcb>, i: nat) returns (p: Pcb)
    requires q.Valid() && i < |ps| && q.items == ps[i..] + kept
    modifies q
    ensures q.Valid() && p == ps[i] && q.items == ps[i + 1..] + kept
  {
    assert ps[i..] == [ps[i]] + ps[i + 1..];
    p := q.Pop();
  }

  /** Append `ps[i]`, selected by `m`, to a queue that ends with the selection of `ps[..i]`. */
  method AddSelected(q: Queue, ghost pre: seq<Pcb>, ghost ps: seq<Pcb>, ghost m: seq<bool>, i: nat, p: Pcb)
    requires q.Valid() && i < |ps| == |m| && m[i] && p == ps[i] && q.items == pre + Select(ps, m, i)
    modifies q
    ensures q.Valid() && q.items == pre + Select(ps, m, i + 1)
  {
    q.Add(p, p.pid);
  }
}
