/**
 Counting references: descriptors are named by the `filp` entries of processes, inode slots are
 named by descriptors.
 */
module Refs {
  import opened Prelude

  type Row = seq<Option<nat>>     // filp[] of one process

  datatype Desc = Desc(mode: int, pos: nat, cnt: nat, inode: Option<nat>)

  /** All filp entries of all processes. */
  function Total(rows: seq<Row>): multiset<Option<nat>> {
    if rows == [] then multiset{} else multiset(rows[0]) + Total(rows[1..])
  }

  lemma {:induction false} TotalUpdate(rows: seq<Row>, p: nat, row: Row)
    requires p < |rows|
    ensures multiset(rows[p]) <= Total(rows)
    ensures Total(rows[p := row]) == Total(rows) - multiset(rows[p]) + multiset(row)
  {
    if p == 0 {
      assert rows[p := row][1..] == rows[1..];
    } else {
      assert rows[p := row][1..] == rows[1..][p - 1 := row];
      TotalUpdate(rows[1..], p - 1, row);
    }
  }

  lemma {:induction false} InTotal(rows: seq<Row>, e: Option<nat>)
    ensures e in Total(rows) <==> exists p, f :: 0 <= p < |rows| && 0 <= f < |rows[p]| && rows[p][f] == e
  {
    if rows != [] {
      InTotal(rows[1..], e);
      if e in multiset(rows[0]) {
        assert e in rows[0];
      }
      if e in Total(rows[1..]) {
        var p, f :| 0 <= p < |rows[1..]| && 0 <= f < |rows[1..][p]| && rows[1..][p][f] == e;
        assert rows[p + 1][f] == e;
      }
      if p, f :| 0 <= p < |rows| && 0 <= f < |rows[p]| && rows[p][f] == e {
        if p > 0 { assert rows[1..][p - 1][f] == e; } else { assert e in multiset(rows[0]); }
      }
    }
  }

  /** How many filp entries reach inode slot `s` through a descriptor. */
  function Reach(total: multiset<Option<nat>>, descs: seq<Desc>, s: nat): nat {
    if descs == [] then 0 else
      var d := |descs| - 1;
      Reach(total, descs[..d], s) + if descs[d].inode == Some(s) then total[Some(d)] else 0
  }

  lemma {:induction false} ReachMore(total: multiset<Option<nat>>, descs: seq<Desc>, d: nat, s: nat)
    ensures Reach(total + multiset{Some(d)}, descs, s)
         == Reach(total, descs, s) + if d < |descs| && descs[d].inode == Some(s) then 1 else 0
  {
    if descs != [] { ReachMore(total, descs[..|descs| - 1], d, s); }
  }

  lemma {:induction false} ReachSame(total: multiset<Option<nat>>, total': multiset<Option<nat>>, descs: seq<Desc>, s: nat)
    requires forall d :: 0 <= d < |descs| ==> total'[Some(d)] == total[Some(d)]
    ensures Reach(total', descs, s) == Reach(total, descs, s)
  {
    if descs != [] { ReachSame(total, total', descs[..|descs| - 1], s); }
  }

  /** A descriptor may change its inode only while nobody names it. */
  lemma {:induction false} ReachUpdate(total: multiset<Option<nat>>, descs: seq<Desc>, d: nat, v: Desc, s: nat)
    requires d < |descs| && (v.inode == descs[d].inode || total[Some(d)] == 0)
    ensures Reach(total, descs[d := v], s) == Reach(total, descs, s)
  {
    var n := |descs| - 1;
    if d == n {
      assert descs[d := v][..n] == descs[..n];
    } else {
      assert descs[d := v][..n] == descs[..n][d := v];
      ReachUpdate(total, descs[..n], d, v, s);
    }
  }

  lemma {:induction false} ReachAtLeast(total: multiset<Option<nat>>, descs: seq<Desc>, d: nat, s: nat)
    requires d < |descs| && descs[d].inode == Some(s)
    ensures Reach(total, descs, s) >= total[Some(d)]
  {
    if d < |descs| - 1 { ReachAtLeast(total, descs[..|descs| - 1], d, s); }
  }

  /** The same number, counted entry by entry. */
  function EntriesIn(row: Row, descs: seq<Desc>, s: nat): nat {
    if row == [] then 0 else
      var e := row[|row| - 1];
      EntriesIn(row[..|row| - 1], descs, s)
      + if e.Some? && e.value < |descs| && descs[e.value].inode == Some(s) then 1 else 0
  }

  function Entries(rows: seq<Row>, descs: seq<Desc>, s: nat): nat {
    if rows == [] then 0 else EntriesIn(rows[0], descs, s) + Entries(rows[1..], descs, s)
  }

  lemma {:induction false} ReachAddsRow(total: multiset<Option<nat>>, row: Row, descs: seq<Desc>, s: nat)
    ensures Reach(total + multiset(row), descs, s) == Reach(total, descs, s) + EntriesIn(row, descs, s)
  {
    if row == [] {
      assert total + multiset(row) == total;
    } else {
      var front, e := row[..|row| - 1], row[|row| - 1];
      assert row == front + [e];
      assert total + multiset(row) == (total + multiset(front)) + multiset{e};
      ReachAddsRow(total, front, descs, s);
      if e.Some? {
        ReachMore(total + multiset(front), descs, e.value, s);
      } else {
        ReachSame(total + multiset(front), total + multiset(row), descs, s);
      }
    }
  }

  lemma {:induction false} ReachCountsEntries(rows: seq<Row>, descs: seq<Desc>, s: nat)
    ensures Reach(Total(rows), descs, s) == Entries(rows, descs, s)
  {
    if rows == [] {
      ReachOfNothing(descs, s);
    } else {
      ReachCountsEntries(rows[1..], descs, s);
      ReachAddsRow(Total(rows[1..]), rows[0], descs, s);
      assert Total(rows) == Total(rows[1..]) + multiset(rows[0]);
    }
  }

  lemma {:induction false} ReachOfNothing(descs: seq<Desc>, s: nat)
    ensures Reach(multiset{}, descs, s) == 0
  {
    if descs != [] { ReachOfNothing(descs[..|descs| - 1], s); }
  }

  // ---------------------------------------------------------------- the books

  /**
   The counters say what they should: `fd_cnt` is the number of filp entries that name the descriptor,
   and `i_cnt` (here `cnts`) the number of those that reach the slot, plus the references in `extra`.
   */
  ghost predicate Accounts(total: multiset<Option<nat>>, descs: seq<Desc>, cnts: seq<nat>, extra: multiset<nat>) {
    && (forall e :: e in total && e.Some? ==> e.value < |descs|)
    && (forall d :: 0 <= d < |descs| ==>
          && descs[d].cnt == total[Some(d)]
          && (descs[d].inode.Some? <==> descs[d].cnt > 0)
          && (descs[d].inode.Some? ==> descs[d].inode.value < |cnts|))
    && (forall s :: 0 <= s < |cnts| ==> cnts[s] == Reach(total, descs, s) + extra[s])
    && (forall s :: s in extra ==> s < |cnts|)
  }

  lemma ExtraInUse(total: multiset<Option<nat>>, descs: seq<Desc>, cnts: seq<nat>, extra: multiset<nat>, s: nat)
    requires Accounts(total, descs, cnts, extra) && s in extra
    ensures s < |cnts| && cnts[s] > 0
  {
  }

  /** A reference outside filp comes or goes together with the counter. */
  lemma AddExtra(total: multiset<Option<nat>>, descs: seq<Desc>, cnts: seq<nat>, extra: multiset<nat>, s: nat)
    requires Accounts(total, descs, cnts, extra) && s < |cnts|
    ensures Accounts(total, descs, cnts[s := cnts[s] + 1], extra + multiset{s})
  {
  }

  lemma DropExtra(total: multiset<Option<nat>>, descs: seq<Desc>, cnts: seq<nat>, extra: multiset<nat>, s: nat)
    requires Accounts(total, descs, cnts, extra) && s in extra
    ensures s < |cnts| && cnts[s] > 0
    ensures Accounts(total, descs, cnts[s := cnts[s] - 1], extra - multiset{s})
  {
  }

  /** One more filp entry for a descriptor in use, with both counters raised. */
  lemma AddRef(total: multiset<Option<nat>>, descs: seq<Desc>, cnts: seq<nat>, extra: multiset<nat>, d: nat)
    requires Accounts(total, descs, cnts, extra) && d < |descs| && descs[d].inode.Some?
    ensures var s := descs[d].inode.value;
            s < |cnts| &&
            Accounts(total + multiset{Some(d)}, descs[d := descs[d].(cnt := descs[d].cnt + 1)], cnts[s := cnts[s] + 1], extra)
  {
    var s, v := descs[d].inode.value, descs[d].(cnt := descs[d].cnt + 1);
    var total' := total + multiset{Some(d)};
    forall r | 0 <= r < |cnts|
      ensures Reach(total', descs[d := v], r) == Reach(total, descs, r) + if r == s then 1 else 0
    {
      ReachUpdate(total', descs, d, v, r);
      ReachMore(total, descs, d, r);
    }
  }

  lemma ReachLess(total: multiset<Option<nat>>, descs: seq<Desc>, d: nat, v: Desc, r: nat)
    requires d < |descs| && total[Some(d)] == descs[d].cnt == v.cnt + 1 && descs[d].inode.Some?
    requires v.inode == if v.cnt == 0 then None else descs[d].inode
    ensures Reach(total - multiset{Some(d)}, descs[d := v], r)
         == Reach(total, descs, r) - if descs[d].inode == Some(r) then 1 else 0
  {
    var total' := total - multiset{Some(d)};
    assert total' + multiset{Some(d)} == total;
    ReachMore(total', descs, d, r);
    ReachUpdate(total', descs, d, v, r);
  }

  /** One filp entry less, with both counters lowered; the last one frees the descriptor. */
  lemma DropRef(total: multiset<Option<nat>>, descs: seq<Desc>, cnts: seq<nat>, extra: multiset<nat>, d: nat, v: Desc)
    requires Accounts(total, descs, cnts, extra) && Some(d) in total
    requires d < |descs| && v.cnt + 1 == descs[d].cnt
    requires v.inode == if v.cnt == 0 then None else descs[d].inode
    ensures descs[d].inode.Some? && descs[d].inode.value < |cnts| && cnts[descs[d].inode.value] > 0
    ensures var s := descs[d].inode.value;
            Accounts(total - multiset{Some(d)}, descs[d := v], cnts[s := cnts[s] - 1], extra)
  {
    var s := descs[d].inode.value;
    ReachAtLeast(total, descs, d, s);
    hide Reach;
    forall r | 0 <= r < |cnts|
      ensures Reach(total - multiset{Some(d)}, descs[d := v], r) == Reach(total, descs, r) - if r == s then 1 else 0
    {
      ReachLess(total, descs, d, v, r);
    }
  }

  /** A free descriptor and a reference held from outside become an open file. */
  lemma Connect(total: multiset<Option<nat>>, descs: seq<Desc>, cnts: seq<nat>, extra: multiset<nat>, d: nat, v: Desc, s: nat)
    requires Accounts(total, descs, cnts, extra) && d < |descs| && descs[d].inode.None? && s in extra
    requires v.inode == Some(s) && v.cnt == 1
    ensures total[Some(d)] == 0
    ensures Accounts(total + multiset{Some(d)}, descs[d := v], cnts, extra - multiset{s})
  {
    var total' := total + multiset{Some(d)};
    assert descs[d].cnt == total[Some(d)];
    forall r | 0 <= r < |cnts|
      ensures Reach(total', descs[d := v], r) == Reach(total, descs, r) + if r == s then 1 else 0
    {
      ReachUpdate(total, descs, d, v, r);
      ReachMore(total, descs[d := v], d, r);
    }
  }

  lemma MoreNones(total: multiset<Option<nat>>, total': multiset<Option<nat>>, descs: seq<Desc>, cnts: seq<nat>, extra: multiset<nat>)
    requires Accounts(total, descs, cnts, extra)
    requires forall d: nat :: total'[Some(d)] == total[Some(d)]
    ensures Accounts(total', descs, cnts, extra)
  {
    forall e | e in total' && e.Some?
      ensures e.value < |descs|
    { assert total'[Some(e.value)] == total[Some(e.value)]; }
    forall s | 0 <= s < |cnts|
      ensures Reach(total', descs, s) == Reach(total, descs, s)
    { ReachSame(total, total', descs, s); }
  }

  /** A descriptor or slot whose counter is 0 is not named by any process. */
  lemma FreeMeansUnnamed(rows: seq<Row>, descs: seq<Desc>, cnts: seq<nat>, extra: multiset<nat>)
    requires Accounts(Total(rows), descs, cnts, extra)
    ensures forall p, f :: 0 <= p < |rows| && 0 <= f < |rows[p]| && rows[p][f].Some? ==>
              && rows[p][f].value < |descs|
              && descs[rows[p][f].value].cnt > 0 && descs[rows[p][f].value].inode.Some?
              && descs[rows[p][f].value].inode.value < |cnts| && cnts[descs[rows[p][f].value].inode.value] > 0
  {
    forall p, f | 0 <= p < |rows| && 0 <= f < |rows[p]| && rows[p][f].Some?
      ensures && rows[p][f].value < |descs|
              && descs[rows[p][f].value].cnt > 0 && descs[rows[p][f].value].inode.Some?
              && descs[rows[p][f].value].inode.value < |cnts| && cnts[descs[rows[p][f].value].inode.value] > 0
    {
      var d := rows[p][f].value;
      InTotal(rows, Some(d));
      assert Some(d) in Total(rows);
      ReachAtLeast(Total(rows), descs, d, descs[d].inode.value);
    }
  }
}
