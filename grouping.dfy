/** How `run` cuts a sorted index into the groups it writes (main.go:216-228). */
module Grouping {
  import opened Text
  import opened Index

  /** main.go:219: a record is added to the pending group, whose key is
      `key`, only when its raw `Source` field is non-empty and equal to the
      key. A record whose `Source` is empty or carries a " (version)" suffix
      never joins. */
  predicate Joins(r: Record, key: string)
  {
    r.source != "" && r.source == key
  }

  function Flatten(gs: seq<seq<Record>>): seq<Record>
  {
    if gs == [] then [] else gs[0] + Flatten(gs[1..])
  }

  lemma {:induction false} FlattenAppend(a: seq<seq<Record>>, b: seq<seq<Record>>)
    ensures Flatten(a + b) == Flatten(a) + Flatten(b)
  {
    if a != [] {
      assert (a + b)[0] == a[0] && (a + b)[1..] == a[1..] + b;
      FlattenAppend(a[1..], b);
    } else {
      assert a + b == b;
    }
  }

  predicate NonEmptyGroups(gs: seq<seq<Record>>)
  {
    forall i :: 0 <= i < |gs| ==> gs[i] != []
  }

  /** Every record after the first of a group joined that group. */
  predicate MembersJoin(gs: seq<seq<Record>>)
    requires NonEmptyGroups(gs)
  {
    forall i, j :: 0 <= i < |gs| && 0 < j < |gs[i]| ==> Joins(gs[i][j], SourceName(gs[i][0]))
  }

  /** The first record of every group but the first did not join the group
      before it. */
  predicate HeadsBreak(gs: seq<seq<Record>>)
    requires NonEmptyGroups(gs)
  {
    forall i :: 0 < i < |gs| ==> !Joins(gs[i][0], SourceName(gs[i - 1][0]))
  }

  /** `gs` is the cutting of `idx` the loop performs: the groups are
      non-empty, concatenate to `idx`, each record joins the group it is in,
      and each group starts where a record failed to join the one before. */
  predicate IsRunSplit(gs: seq<seq<Record>>, idx: seq<Record>)
  {
    Flatten(gs) == idx && NonEmptyGroups(gs) && MembersJoin(gs) && HeadsBreak(gs)
  }

  /** A record that joined a group has the group's key as its own key. */
  lemma JoinedKey(r: Record, key: string)
    requires Joins(r, key) && ' ' !in key
    ensures SourceName(r) == key
  {
    FirstTokenOfWord(key);
  }

  /** The groups of `idx`, built from the right. */
  function Runs(idx: seq<Record>): (gs: seq<seq<Record>>)
    ensures IsRunSplit(gs, idx)
    ensures |gs| <= |idx| && (idx != [] ==> gs != [])
  {
    if idx == [] then []
    else
      var rest := Runs(idx[1..]);
      if rest != [] && Joins(idx[1], SourceName(idx[0])) then
        var gs := [[idx[0]] + rest[0]] + rest[1..];
        RunsExtend(idx, rest, gs);
        gs
      else
        var gs := [[idx[0]]] + rest;
        RunsPrepend(idx, rest, gs);
        gs
  }

  lemma RunsExtend(idx: seq<Record>, rest: seq<seq<Record>>, gs: seq<seq<Record>>)
    requires idx != [] && IsRunSplit(rest, idx[1..]) && rest != []
    requires Joins(idx[1], SourceName(idx[0]))
    requires gs == [[idx[0]] + rest[0]] + rest[1..]
    ensures IsRunSplit(gs, idx)
  {
    FlattenHead(rest);
    JoinedKey(idx[1], SourceName(idx[0]));
    FlattenExtend(idx[0], rest, gs);
    assert idx == [idx[0]] + idx[1..];
    assert NonEmptyGroups(gs) by {
      forall i | 0 < i < |gs| ensures gs[i] != [] {
        assert gs[i] == rest[i];
      }
    }
    ExtendedJoin(idx[0], rest, gs);
    ExtendedBreak(idx[0], rest, gs);
  }

  lemma FlattenExtend(x: Record, rest: seq<seq<Record>>, gs: seq<seq<Record>>)
    requires rest != [] && gs == [[x] + rest[0]] + rest[1..]
    ensures Flatten(gs) == [x] + Flatten(rest)
  {
    assert gs[1..] == rest[1..];
  }

  /** Adding a record that joins in front of the first group keeps every
      member joined. */
  lemma ExtendedJoin(x: Record, rest: seq<seq<Record>>, gs: seq<seq<Record>>)
    requires rest != [] && NonEmptyGroups(rest) && MembersJoin(rest)
    requires Joins(rest[0][0], SourceName(x)) && SourceName(rest[0][0]) == SourceName(x)
    requires gs == [[x] + rest[0]] + rest[1..] && NonEmptyGroups(gs)
    ensures MembersJoin(gs)
  {
    forall i, j | 0 <= i < |gs| && 0 < j < |gs[i]| ensures Joins(gs[i][j], SourceName(gs[i][0])) {
      if i == 0 {
        assert gs[0][j] == rest[0][j - 1];
        if j > 1 {
          assert Joins(rest[0][j - 1], SourceName(rest[0][0]));
        }
      } else {
        assert gs[i] == rest[i];
      }
    }
  }

  /** Adding a record in front of the first group leaves every group head
      breaking from the group before. */
  lemma ExtendedBreak(x: Record, rest: seq<seq<Record>>, gs: seq<seq<Record>>)
    requires rest != [] && NonEmptyGroups(rest) && HeadsBreak(rest)
    requires SourceName(rest[0][0]) == SourceName(x)
    requires gs == [[x] + rest[0]] + rest[1..] && NonEmptyGroups(gs)
    ensures HeadsBreak(gs)
  {
    forall i | 0 < i < |gs| ensures !Joins(gs[i][0], SourceName(gs[i - 1][0])) {
      assert gs[i] == rest[i];
      if i > 1 {
        assert gs[i - 1] == rest[i - 1];
      }
    }
  }

  lemma RunsPrepend(idx: seq<Record>, rest: seq<seq<Record>>, gs: seq<seq<Record>>)
    requires idx != [] && IsRunSplit(rest, idx[1..])
    requires rest != [] ==> !Joins(idx[1], SourceName(idx[0]))
    requires gs == [[idx[0]]] + rest
    ensures IsRunSplit(gs, idx)
  {
    assert gs[1..] == rest;
    assert idx == [idx[0]] + idx[1..];
    if rest != [] {
      assert rest == [rest[0]] + rest[1..];
      assert rest[0][0] == idx[1];
    }
    forall i, j | 0 <= i < |gs| && 0 < j < |gs[i]| ensures Joins(gs[i][j], SourceName(gs[i][0])) {
      assert gs[i] == rest[i - 1];
    }
    forall i | 0 < i < |gs| ensures !Joins(gs[i][0], SourceName(gs[i - 1][0])) {
      assert gs[i] == rest[i - 1];
      if i > 1 {
        assert gs[i - 1] == rest[i - 2];
      }
    }
  }

  lemma FlattenHead(gs: seq<seq<Record>>)
    requires gs != [] && NonEmptyGroups(gs)
    ensures Flatten(gs) == gs[0] + Flatten(gs[1..]) && Flatten(gs) != [] && Flatten(gs)[0] == gs[0][0]
  {
  }

  /** Dropping the first record of a first group of two or more records
      leaves a split of the rest of the index. */
  lemma TailOfLongHead(gs: seq<seq<Record>>, idx: seq<Record>)
    requires IsRunSplit(gs, idx) && gs != [] && |gs[0]| > 1
    ensures idx != [] && |idx| > 1 && gs[0][0] == idx[0] && gs[0][1] == idx[1]
    ensures Joins(idx[1], SourceName(idx[0]))
    ensures IsRunSplit([gs[0][1..]] + gs[1..], idx[1..])
  {
    FlattenHead(gs);
    var x := gs[0][0];
    var tail := [gs[0][1..]] + gs[1..];
    assert Flatten(tail) == idx[1..] by {
      assert tail[0] == gs[0][1..] && tail[1..] == gs[1..];
      assert gs[0] == [x] + gs[0][1..];
      assert gs == [[x] + tail[0]] + tail[1..];
      FlattenExtend(x, tail, gs);
    }
    JoinedKey(gs[0][1], SourceName(x));
    assert NonEmptyGroups(tail);
    assert MembersJoin(tail) by {
      forall i, j | 0 <= i < |tail| && 0 < j < |tail[i]| ensures Joins(tail[i][j], SourceName(tail[i][0])) {
        if i == 0 {
          assert tail[0][j] == gs[0][j + 1] && tail[0][0] == gs[0][1];
        } else {
          assert tail[i] == gs[i];
        }
      }
    }
    assert HeadsBreak(tail) by {
      forall i | 0 < i < |tail| ensures !Joins(tail[i][0], SourceName(tail[i - 1][0])) {
        assert tail[i] == gs[i];
        if i > 1 {
          assert tail[i - 1] == gs[i - 1];
        } else {
          assert tail[0][0] == gs[0][1];
        }
      }
    }
  }

  /** Dropping a first group of one record leaves a split of the rest. */
  lemma TailOfShortHead(gs: seq<seq<Record>>, idx: seq<Record>)
    requires IsRunSplit(gs, idx) && gs != [] && |gs[0]| == 1
    ensures idx != [] && gs[0] == [idx[0]]
    ensures IsRunSplit(gs[1..], idx[1..])
    ensures |gs| > 1 ==> |idx| > 1 && gs[1][0] == idx[1] && !Joins(idx[1], SourceName(idx[0]))
  {
    FlattenHead(gs);
    var tail := gs[1..];
    forall i, j | 0 <= i < |tail| && 0 < j < |tail[i]| ensures Joins(tail[i][j], SourceName(tail[i][0])) {
      assert tail[i] == gs[i + 1];
    }
    forall i | 0 < i < |tail| ensures !Joins(tail[i][0], SourceName(tail[i - 1][0])) {
      assert tail[i] == gs[i + 1] && tail[i - 1] == gs[i];
    }
    if tail != [] {
      FlattenHead(tail);
    }
  }

  /** The cutting is unique: any grouping with the loop's properties is the
      one `Runs` builds. */
  lemma {:induction false} RunSplitUnique(gs: seq<seq<Record>>, idx: seq<Record>)
    requires IsRunSplit(gs, idx)
    ensures gs == Runs(idx)
    decreases |idx|, 1
  {
    if gs != [] {
      if |gs[0]| > 1 {
        UniqueLongHead(gs, idx);
      } else {
        TailOfShortHead(gs, idx);
        RunSplitUnique(gs[1..], idx[1..]);
        assert [[idx[0]]] + gs[1..] == gs;
      }
    }
  }

  /** The case of `RunSplitUnique` where the first group has more than one
      record. */
  lemma {:induction false} UniqueLongHead(gs: seq<seq<Record>>, idx: seq<Record>)
    requires IsRunSplit(gs, idx) && gs != [] && |gs[0]| > 1
    ensures gs == Runs(idx)
    decreases |idx|, 0
  {
    TailOfLongHead(gs, idx);
    var tail := [gs[0][1..]] + gs[1..];
    RunSplitUnique(tail, idx[1..]);
    assert tail[0] == gs[0][1..] && tail[1..] == gs[1..];
    assert [idx[0]] + gs[0][1..] == gs[0];
    assert [[idx[0]] + tail[0]] + tail[1..] == gs;
  }

  /** The groups `run` passes to `writeBinPkgs`: all but the last. The final
      pending group is never written, because nothing after the loop writes it
      (main.go:228-229). */
  function WrittenRuns(idx: seq<Record>): (ws: seq<seq<Record>>)
    ensures idx != [] ==> |ws| == |Runs(idx)| - 1 && ws == Runs(idx)[..|ws|]
    ensures idx == [] ==> ws == []
  {
    var gs := Runs(idx);
    if gs == [] then [] else gs[..|gs| - 1]
  }

  /** A group `writeBinPkgs` can take without a panic: it is non-empty and its
      key is long enough to shard. */
  predicate Writable(g: seq<Record>)
  {
    g != [] && Shardable(SourceName(g[0]))
  }

  /** Every group is writable. */
  predicate GroupsWritable(gs: seq<seq<Record>>)
  {
    forall k :: 0 <= k < |gs| ==> Writable(gs[k])
  }

  /** How many groups are written before the first that panics. */
  function WritablePrefix(gs: seq<seq<Record>>): (n: nat)
    ensures n <= |gs| && GroupsWritable(gs[..n])
    ensures n < |gs| ==> !Writable(gs[n])
  {
    if gs == [] || !Writable(gs[0]) then 0
    else
      var n := 1 + WritablePrefix(gs[1..]);
      assert forall k :: 1 <= k < n ==> gs[..n][k] == gs[1..][..n - 1][k - 1];
      n
  }

  /** The writable prefix is the only one followed by a group that panics. */
  lemma WritablePrefixAt(gs: seq<seq<Record>>, m: nat)
    requires m <= |gs| && GroupsWritable(gs[..m])
    requires m < |gs| ==> !Writable(gs[m])
    ensures WritablePrefix(gs) == m
  {
    var n := WritablePrefix(gs);
    assert forall k :: 0 <= k < m ==> gs[..m][k] == gs[k];
    assert forall k :: 0 <= k < n ==> gs[..n][k] == gs[k];
  }

  /** Two splits concatenate into a split when the first group of the second
      does not join the last group of the first. */
  lemma SplitConcat(a: seq<seq<Record>>, x: seq<Record>, b: seq<seq<Record>>, y: seq<Record>)
    requires IsRunSplit(a, x) && IsRunSplit(b, y) && a != [] && b != []
    requires !Joins(b[0][0], SourceName(a[|a| - 1][0]))
    ensures IsRunSplit(a + b, x + y)
  {
    FlattenAppend(a, b);
    var gs := a + b;
    forall i, j | 0 <= i < |gs| && 0 < j < |gs[i]| ensures Joins(gs[i][j], SourceName(gs[i][0])) {
      if i < |a| { assert gs[i] == a[i]; } else { assert gs[i] == b[i - |a|]; }
    }
    forall i | 0 < i < |gs| ensures !Joins(gs[i][0], SourceName(gs[i - 1][0])) {
      if i < |a| {
        assert gs[i] == a[i] && gs[i - 1] == a[i - 1];
      } else if i == |a| {
        assert gs[i] == b[0] && gs[i - 1] == a[|a| - 1];
      } else {
        assert gs[i] == b[i - |a|] && gs[i - 1] == b[i - 1 - |a|];
      }
    }
  }

  /** What the loop has cut so far, once the next record fails to join, is a
      prefix of the groups that get written. */
  lemma PrefixIsWritten(gs: seq<seq<Record>>, idx: seq<Record>, i: nat)
    requires i < |idx| && IsRunSplit(gs, idx[..i]) && gs != []
    requires !Joins(idx[i], SourceName(gs[|gs| - 1][0]))
    ensures |gs| <= |WrittenRuns(idx)| && gs == WrittenRuns(idx)[..|gs|]
  {
    var rest := Runs(idx[i..]);
    FlattenHead(rest);
    SplitConcat(gs, idx[..i], rest, idx[i..]);
    assert idx[..i] + idx[i..] == idx;
    RunSplitUnique(gs + rest, idx);
    PrefixOfConcat(gs, rest);
  }

  lemma FlattenSnoc(gs: seq<seq<Record>>, g: seq<Record>, x: Record)
    ensures Flatten(gs + [g + [x]]) == Flatten(gs + [g]) + [x]
  {
    FlattenAppend(gs, [g]);
    FlattenAppend(gs, [g + [x]]);
    assert Flatten([g]) == g + Flatten([]);
    assert Flatten([g + [x]]) == g + [x] + Flatten([]);
  }

  /** All but the last group of `gs + rest` start with `gs` when `rest` is
      not empty. */
  lemma PrefixOfConcat(gs: seq<seq<Record>>, rest: seq<seq<Record>>)
    requires rest != []
    ensures var all := gs + rest;
      |gs| <= |all| - 1 && all[..|all| - 1][..|gs|] == gs
  {
    var all := gs + rest;
    assert all[..|all| - 1][..|gs|] == all[..|gs|];
  }

  /** The loop step that appends a joining record to the pending group. */
  lemma SplitExtendLast(gs: seq<seq<Record>>, g: seq<Record>, idx: seq<Record>, i: nat)
    requires i < |idx| && g != [] && IsRunSplit(gs + [g], idx[..i])
    requires Joins(idx[i], SourceName(g[0]))
    ensures IsRunSplit(gs + [g + [idx[i]]], idx[..i + 1])
  {
    FlattenSnoc(gs, g, idx[i]);
    assert idx[..i + 1] == idx[..i] + [idx[i]];
    SnocJoin(gs, g, idx[i]);
    SnocBreak(gs, g, idx[i]);
  }

  /** Appending a joining record to the last group keeps every member
      joined. */
  lemma SnocJoin(gs: seq<seq<Record>>, g: seq<Record>, x: Record)
    requires g != [] && NonEmptyGroups(gs + [g]) && MembersJoin(gs + [g])
    requires Joins(x, SourceName(g[0]))
    ensures NonEmptyGroups(gs + [g + [x]]) && MembersJoin(gs + [g + [x]])
  {
    var before := gs + [g];
    var after := gs + [g + [x]];
    forall k | 0 <= k < |after| ensures after[k] != [] {
      if k < |gs| { assert after[k] == before[k]; }
    }
    forall k, j | 0 <= k < |after| && 0 < j < |after[k]| ensures Joins(after[k][j], SourceName(after[k][0])) {
      if k < |gs| {
        assert after[k] == before[k];
      } else {
        assert after[k] == g + [x] && before[k] == g;
        if j < |g| { assert after[k][j] == before[k][j]; }
      }
    }
  }

  /** Appending a record to the last group leaves every group head as it
      was. */
  lemma SnocBreak(gs: seq<seq<Record>>, g: seq<Record>, x: Record)
    requires g != [] && NonEmptyGroups(gs + [g]) && HeadsBreak(gs + [g])
    requires NonEmptyGroups(gs + [g + [x]])
    ensures HeadsBreak(gs + [g + [x]])
  {
    var before := gs + [g];
    var after := gs + [g + [x]];
    forall k | 0 < k < |after| ensures !Joins(after[k][0], SourceName(after[k - 1][0])) {
      assert after[k][0] == before[k][0] && after[k - 1][0] == before[k - 1][0];
    }
  }

  /** The loop step that starts a new pending group with a record that does
      not join. */
  lemma SplitNewGroup(gs: seq<seq<Record>>, g: seq<Record>, idx: seq<Record>, i: nat)
    requires i < |idx| && g != [] && IsRunSplit(gs + [g], idx[..i])
    requires !Joins(idx[i], SourceName(g[0]))
    ensures IsRunSplit(gs + [g] + [[idx[i]]], idx[..i + 1])
  {
    assert Flatten([[idx[i]]]) == [idx[i]] + Flatten([]);
    assert IsRunSplit([[idx[i]]], [idx[i]]);
    assert (gs + [g])[|gs + [g]| - 1] == g;
    SplitConcat(gs + [g], idx[..i], [[idx[i]]], [idx[i]]);
    assert idx[..i + 1] == idx[..i] + [idx[i]];
  }

  /** The state of the grouping loop of `run` before it looks at `idx[i]`:
      the groups written so far and the pending group cut `idx[..i]` as the
      loop does, the written ones are the first groups `run` writes, and none
      of them panicked. */
  predicate Scanned(idx: seq<Record>, i: nat, written: seq<seq<Record>>, pending: seq<Record>)
  {
    && 1 <= i <= |idx| && pending != []
    && IsRunSplit(written + [pending], idx[..i])
    && |written| <= |WrittenRuns(idx)| && written == WrittenRuns(idx)[..|written|]
    && GroupsWritable(written)
  }

  /** The loop starts with the first record pending and nothing written. */
  lemma ScanStart(idx: seq<Record>)
    requires idx != []
    ensures Scanned(idx, 1, [], [idx[0]])
  {
    assert [] + [[idx[0]]] == [[idx[0]]];
    assert Flatten([[idx[0]]]) == [idx[0]] + Flatten([]);
  }

  /** A record that joins is appended to the pending group. */
  lemma ScanJoin(idx: seq<Record>, i: nat, written: seq<seq<Record>>, pending: seq<Record>)
    requires Scanned(idx, i, written, pending) && i < |idx|
    requires Joins(idx[i], SourceName(pending[0]))
    ensures Scanned(idx, i + 1, written, pending + [idx[i]])
  {
    SplitExtendLast(written, pending, idx, i);
  }

  /** A record that does not join: the pending group is the next group `run`
      writes, and the record starts a new pending group. */
  lemma ScanBreak(idx: seq<Record>, i: nat, written: seq<seq<Record>>, pending: seq<Record>)
    requires Scanned(idx, i, written, pending) && i < |idx|
    requires !Joins(idx[i], SourceName(pending[0])) && Writable(pending)
    ensures Scanned(idx, i + 1, written + [pending], [idx[i]])
  {
    SplitNewGroup(written, pending, idx, i);
    assert (written + [pending])[|written + [pending]| - 1] == pending;
    PrefixIsWritten(written + [pending], idx, i);
    assert forall k :: 0 <= k < |written| ==> (written + [pending])[k] == written[k];
  }

  /** A record that does not join a pending group whose key cannot be
      sharded: that group is the first written one that panics. */
  lemma ScanPanic(idx: seq<Record>, i: nat, written: seq<seq<Record>>, pending: seq<Record>)
    requires Scanned(idx, i, written, pending) && i < |idx|
    requires !Joins(idx[i], SourceName(pending[0])) && !Writable(pending)
    ensures var ws := WrittenRuns(idx);
      |written| < |ws| && WritablePrefix(ws) == |written| && ws[..WritablePrefix(ws)] == written
  {
    var ws := WrittenRuns(idx);
    assert (written + [pending])[|written + [pending]| - 1] == pending;
    PrefixIsWritten(written + [pending], idx, i);
    assert pending == ws[..|written| + 1][|written|];
    assert written == ws[..|written| + 1][..|written|];
    WritablePrefixAt(ws, |written|);
  }

  /** At the end of the index the written groups are all the groups `run`
      writes. */
  lemma ScanEnd(idx: seq<Record>, written: seq<seq<Record>>, pending: seq<Record>)
    requires Scanned(idx, |idx|, written, pending)
    ensures var ws := WrittenRuns(idx);
      WritablePrefix(ws) == |ws| && ws[..WritablePrefix(ws)] == written
  {
    assert idx[..|idx|] == idx;
    RunSplitUnique(written + [pending], idx);
    assert WrittenRuns(idx) == written;
    WritablePrefixAt(written, |written|);
    assert written[..|written|] == written;
  }

  /** Each record after the first of a group has a non-empty raw `Source`
      without a space, equal to the group's key, and so has that key itself. */
  lemma MembersShareKey(gs: seq<seq<Record>>, idx: seq<Record>, i: nat, j: nat)
    requires IsRunSplit(gs, idx) && i < |gs| && 0 < j < |gs[i]|
    ensures gs[i][j].source != "" && ' ' !in gs[i][j].source
    ensures gs[i][j].source == SourceName(gs[i][0]) && SourceName(gs[i][j]) == SourceName(gs[i][0])
  {
    JoinedKey(gs[i][j], SourceName(gs[i][0]));
  }

  /** A record whose `Source` is empty or holds a space (a " (version)"
      suffix) always begins a new group. */
  lemma BreakersLeadGroups(gs: seq<seq<Record>>, idx: seq<Record>, i: nat, j: nat)
    requires IsRunSplit(gs, idx) && i < |gs| && j < |gs[i]|
    requires gs[i][j].source == "" || ' ' in gs[i][j].source
    ensures j == 0
  {
    if j > 0 {
      MembersShareKey(gs, idx, i, j);
    }
  }

  /** The records `run` writes are the index without its final group: the
      last record of a non-empty index is never written. */
  lemma {:induction false} FinalGroupUnwritten(idx: seq<Record>)
    requires idx != []
    ensures var last := Runs(idx)[|Runs(idx)| - 1];
      last != [] && Flatten(WrittenRuns(idx)) + last == idx
  {
    var gs := Runs(idx);
    var ws := WrittenRuns(idx);
    assert gs == ws + [gs[|gs| - 1]];
    FlattenAppend(ws, [gs[|gs| - 1]]);
    assert Flatten([gs[|gs| - 1]]) == gs[|gs| - 1] + Flatten([]);
  }

  /** Two source packages' binaries with one key can land in different
      groups: a binary of source "bar" named "abar" sorts before the binary
      "bar" that has no `Source` field, and "bar" does not join. */
  lemma SameKeyTwoGroups()
    ensures var a := Record("abar", "bar", "1", []);
      var b := Record("bar", "", "1", []);
      SourceName(a) == SourceName(b) && Runs([a, b]) == [[a], [b]] && WrittenRuns([a, b]) == [[a]]
  {
    var a := Record("abar", "bar", "1", []);
    var b := Record("bar", "", "1", []);
    FirstTokenOfWord("bar");
    assert [a, b][1..] == [b];
    assert [b][1..] == [];
  }
}
