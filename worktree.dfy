/** The git working tree as the program changes it: files written without
    truncation, remove-all, add-all and commit (main.go:116-139, 158, 208-235). */
module Worktree {
  import opened Common
  import opened Index
  import opened Grouping

  /** The files of the working tree, by path. */
  type Tree = map<string, seq<byte>>

  /** A commit: its message and the tree it records. */
  datatype Commit = Commit(message: string, tree: Tree)

  /** What reading `path` gives: nothing for a file that does not exist. */
  function FileAt(tree: Tree, path: string): seq<byte>
  {
    if path in tree then tree[path] else []
  }

  /** One write of `data` at offset `pos` of a file holding `content`: the
      bytes from `pos` are replaced and the file grows when the write runs past
      its end. */
  function WriteAt(content: seq<byte>, pos: nat, data: seq<byte>): (r: seq<byte>)
    requires pos <= |content|
    ensures |r| == if pos + |data| < |content| then |content| else pos + |data|
    ensures r[..pos] == content[..pos] && r[pos..pos + |data|] == data
    ensures forall i :: pos + |data| <= i < |content| ==> r[i] == content[i]
  {
    content[..pos] + data + (if pos + |data| < |content| then content[pos + |data|..] else [])
  }

  /** What writing `data` from the start leaves in a file that held `prev` and
      was opened without O_TRUNC: `data`, followed by whatever of `prev` lies
      beyond it. */
  function Overlay(prev: seq<byte>, data: seq<byte>): (r: seq<byte>)
    ensures |r| == if |data| < |prev| then |prev| else |data|
    ensures r[..|data|] == data
    ensures forall i :: |data| <= i < |prev| ==> r[i] == prev[i]
  {
    if |data| < |prev| then data + prev[|data|..] else data
  }

  /** Two writes one after the other are one overlay of their concatenation. */
  lemma OverlayThenWrite(prev: seq<byte>, d1: seq<byte>, d2: seq<byte>)
    ensures |d1| <= |Overlay(prev, d1)|
    ensures WriteAt(Overlay(prev, d1), |d1|, d2) == Overlay(prev, d1 + d2)
  {
    var r := WriteAt(Overlay(prev, d1), |d1|, d2);
    var o := Overlay(prev, d1 + d2);
    assert |r| == |o|;
    forall i | 0 <= i < |r| ensures r[i] == o[i] {
      if i < |d1| {
        assert r[i] == r[..|d1|][i] == Overlay(prev, d1)[..|d1|][i] == d1[i];
        assert o[i] == o[..|d1 + d2|][i] == (d1 + d2)[i];
      } else if i < |d1| + |d2| {
        assert r[i] == r[|d1|..|d1| + |d2|][i - |d1|] == d2[i - |d1|];
        assert o[i] == o[..|d1 + d2|][i] == (d1 + d2)[i];
      }
    }
  }

  /** The bytes the encoder writes for a group, record after record
      (main.go:132-136); `encode` stands for `control.Encoder.Encode`. */
  function EncodeAll(encode: Record -> seq<byte>, pkgs: seq<Record>): seq<byte>
  {
    if pkgs == [] then [] else EncodeAll(encode, pkgs[..|pkgs| - 1]) + encode(pkgs[|pkgs| - 1])
  }

  /** The encoding of two groups of records one after the other is the
      encoding of the first followed by that of the second. */
  lemma {:induction false} EncodeAllConcat(encode: Record -> seq<byte>, a: seq<Record>, b: seq<Record>)
    ensures EncodeAll(encode, a + b) == EncodeAll(encode, a) + EncodeAll(encode, b)
    decreases |b|
  {
    if b == [] {
      assert a + b == a;
    } else {
      var init := b[..|b| - 1];
      assert (a + b)[..|a + b| - 1] == a + init && (a + b)[|a + b| - 1] == b[|b| - 1];
      EncodeAllConcat(encode, a, init);
    }
  }

  /** Encoding one more record appends its bytes. */
  lemma EncodeAllSnoc(encode: Record -> seq<byte>, pkgs: seq<Record>, i: nat)
    requires i < |pkgs|
    ensures EncodeAll(encode, pkgs[..i + 1]) == EncodeAll(encode, pkgs[..i]) + encode(pkgs[i])
  {
    assert pkgs[..i + 1][..i] == pkgs[..i];
  }

  /** The path of a group: that of its first record's key. */
  function GroupPath(sel: Selector, g: seq<Record>): string
    requires g != [] && Shardable(SourceName(g[0]))
  {
    BinaryPath(sel, SourceName(g[0]))
  }

  /** The tree after `writeBinPkgs` has written one group. */
  function WriteGroup(tree: Tree, sel: Selector, encode: Record -> seq<byte>, g: seq<Record>): Tree
    requires g != [] && Shardable(SourceName(g[0]))
  {
    var path := GroupPath(sel, g);
    tree[path := Overlay(FileAt(tree, path), EncodeAll(encode, g))]
  }

  /** The tree after the groups have been written in order. */
  function WriteGroups(tree: Tree, sel: Selector, encode: Record -> seq<byte>, gs: seq<seq<Record>>): Tree
    requires GroupsWritable(gs)
  {
    if gs == [] then tree
    else WriteGroup(WriteGroups(tree, sel, encode, gs[..|gs| - 1]), sel, encode, gs[|gs| - 1])
  }

  /** Writing one more group is one more `WriteGroup`. */
  lemma WriteGroupsSnoc(tree: Tree, sel: Selector, encode: Record -> seq<byte>, gs: seq<seq<Record>>, g: seq<Record>)
    requires GroupsWritable(gs) && g != [] && Shardable(SourceName(g[0]))
    ensures GroupsWritable(gs + [g])
    ensures WriteGroups(tree, sel, encode, gs + [g]) == WriteGroup(WriteGroups(tree, sel, encode, gs), sel, encode, g)
  {
    assert (gs + [g])[..|gs|] == gs;
    assert forall k :: 0 <= k < |gs| ==> (gs + [g])[k] == gs[k];
  }

  /** A tree built from the groups written so far, with one more group
      written, is the tree built from all of them. */
  lemma WroteOneMore(tree: Tree, pre: Tree, post: Tree, sel: Selector, encode: Record -> seq<byte>,
                     gs: seq<seq<Record>>, g: seq<Record>)
    requires GroupsWritable(gs) && g != [] && Shardable(SourceName(g[0]))
    requires pre == WriteGroups(tree, sel, encode, gs) && post == WriteGroup(pre, sel, encode, g)
    ensures GroupsWritable(gs + [g]) && post == WriteGroups(tree, sel, encode, gs + [g])
  {
    WriteGroupsSnoc(tree, sel, encode, gs, g);
  }

  /** The files present after writing are the old ones and one per group. */
  lemma {:induction false} WriteGroupsDomain(tree: Tree, sel: Selector, encode: Record -> seq<byte>, gs: seq<seq<Record>>, p: string)
    requires GroupsWritable(gs)
    ensures p in WriteGroups(tree, sel, encode, gs) <==>
      p in tree || exists k :: 0 <= k < |gs| && GroupPath(sel, gs[k]) == p
  {
    if gs != [] {
      var init, last := gs[..|gs| - 1], gs[|gs| - 1];
      assert gs == init + [last];
      assert GroupsWritable(init) by {
        assert forall k :: 0 <= k < |init| ==> init[k] == gs[k];
      }
      WriteGroupsDomain(tree, sel, encode, init, p);
      PathsSnoc(sel, init, last, p);
    }
  }

  /** Some group of `gs + [g]` has path `p` just when one of `gs` does or `g`
      does. */
  lemma PathsSnoc(sel: Selector, gs: seq<seq<Record>>, g: seq<Record>, p: string)
    requires GroupsWritable(gs + [g])
    ensures GroupsWritable(gs) && Writable(g)
    ensures (exists k :: 0 <= k < |gs + [g]| && GroupPath(sel, (gs + [g])[k]) == p)
       <==> (exists k :: 0 <= k < |gs| && GroupPath(sel, gs[k]) == p) || GroupPath(sel, g) == p
  {
    var all := gs + [g];
    assert forall k :: 0 <= k < |gs| ==> all[k] == gs[k];
    assert all[|gs|] == g;
  }

  /** A file no group's path names is left as it was. */
  lemma {:induction false} WriteGroupsElsewhere(tree: Tree, sel: Selector, encode: Record -> seq<byte>, gs: seq<seq<Record>>, p: string)
    requires GroupsWritable(gs)
    requires forall k :: 0 <= k < |gs| ==> GroupPath(sel, gs[k]) != p
    ensures FileAt(WriteGroups(tree, sel, encode, gs), p) == FileAt(tree, p)
  {
    if gs != [] {
      var init := gs[..|gs| - 1];
      assert forall k :: 0 <= k < |init| ==> init[k] == gs[k];
      WriteGroupsElsewhere(tree, sel, encode, init, p);
    }
  }

  /** The file of a group that alone has its path holds the group's encoding
      over what the file held before. */
  lemma {:induction false} SoleGroupFile(tree: Tree, sel: Selector, encode: Record -> seq<byte>, gs: seq<seq<Record>>, k: nat)
    requires GroupsWritable(gs) && k < |gs|
    requires forall j :: 0 <= j < |gs| && j != k ==> GroupPath(sel, gs[j]) != GroupPath(sel, gs[k])
    ensures FileAt(WriteGroups(tree, sel, encode, gs), GroupPath(sel, gs[k]))
         == Overlay(FileAt(tree, GroupPath(sel, gs[k])), EncodeAll(encode, gs[k]))
    decreases |gs|, 1
  {
    var init := gs[..|gs| - 1];
    assert forall j :: 0 <= j < |init| ==> init[j] == gs[j];
    if k == |gs| - 1 {
      WriteGroupsElsewhere(tree, sel, encode, init, GroupPath(sel, gs[k]));
    } else {
      SoleGroupEarlier(tree, sel, encode, gs, k);
    }
  }

  /** The case of `SoleGroupFile` where a later group follows: it writes
      another path. */
  lemma {:induction false} SoleGroupEarlier(tree: Tree, sel: Selector, encode: Record -> seq<byte>, gs: seq<seq<Record>>, k: nat)
    requires GroupsWritable(gs) && k < |gs| - 1
    requires forall j :: 0 <= j < |gs| && j != k ==> GroupPath(sel, gs[j]) != GroupPath(sel, gs[k])
    ensures FileAt(WriteGroups(tree, sel, encode, gs), GroupPath(sel, gs[k]))
         == Overlay(FileAt(tree, GroupPath(sel, gs[k])), EncodeAll(encode, gs[k]))
    decreases |gs|, 0
  {
    var init := gs[..|gs| - 1];
    assert forall j :: 0 <= j < |init| ==> init[j] == gs[j];
    SoleGroupFile(tree, sel, encode, init, k);
  }

  /** After the tree is emptied and the groups written, the file of a key that
      only one group has holds exactly that group's encoding. */
  lemma FreshTreeFile(sel: Selector, encode: Record -> seq<byte>, gs: seq<seq<Record>>, k: nat)
    requires GroupsWritable(gs) && k < |gs| && PlainSelector(sel)
    requires forall j :: 0 <= j < |gs| ==> '/' !in SourceName(gs[j][0])
    requires forall j :: 0 <= j < |gs| && j != k ==> SourceName(gs[j][0]) != SourceName(gs[k][0])
    ensures FileAt(WriteGroups(map[], sel, encode, gs), GroupPath(sel, gs[k])) == EncodeAll(encode, gs[k])
  {
    SoleGroupFile(map[], sel, encode, gs, k);
  }

  /** `FreshTreeFile` as an implication, for callers that hold the groups
      only through a function of theirs. */
  lemma FreshTreeFileWhen(sel: Selector, encode: Record -> seq<byte>, gs: seq<seq<Record>>, k: nat)
    requires GroupsWritable(gs) && PlainSelector(sel)
    ensures k < |gs| && (forall j :: 0 <= j < |gs| ==> '/' !in SourceName(gs[j][0]))
      && (forall j :: 0 <= j < |gs| && j != k ==> SourceName(gs[j][0]) != SourceName(gs[k][0]))
      ==> FileAt(WriteGroups(map[], sel, encode, gs), GroupPath(sel, gs[k])) == EncodeAll(encode, gs[k])
  {
    if k < |gs| && (forall j :: 0 <= j < |gs| ==> '/' !in SourceName(gs[j][0]))
       && (forall j :: 0 <= j < |gs| && j != k ==> SourceName(gs[j][0]) != SourceName(gs[k][0])) {
      FreshTreeFile(sel, encode, gs, k);
    }
  }

  /** Two groups with one key share a file, and without truncation the second
      write leaves the tail of the first when the first was longer. */
  lemma SharedFileKeepsStaleTail(sel: Selector, encode: Record -> seq<byte>, g1: seq<Record>, g2: seq<Record>)
    requires g1 != [] && g2 != [] && Shardable(SourceName(g1[0])) && SourceName(g2[0]) == SourceName(g1[0])
    requires |EncodeAll(encode, g2)| < |EncodeAll(encode, g1)|
    ensures var file := FileAt(WriteGroups(map[], sel, encode, [g1, g2]), GroupPath(sel, g1));
      file == EncodeAll(encode, g2) + EncodeAll(encode, g1)[|EncodeAll(encode, g2)|..]
      && file != EncodeAll(encode, g2)
  {
    assert GroupsWritable([g1]);
    WriteGroupsSnoc(map[], sel, encode, [], g1);
    WriteGroupsSnoc(map[], sel, encode, [g1], g2);
    assert [] + [g1] == [g1] && [g1] + [g2] == [g1, g2];
    var e1, e2 := EncodeAll(encode, g1), EncodeAll(encode, g2);
    var t1 := WriteGroups(map[], sel, encode, [g1]);
    assert FileAt(t1, GroupPath(sel, g1)) == e1;
    assert GroupPath(sel, g2) == GroupPath(sel, g1);
  }

  /** The message `run` commits with (main.go:232): the "%s" is not expanded. */
  function CommitMessage(stamp: string): (m: string)
    ensures |m| == 14 + |stamp| && m[..14] == "snapshot at %s" && m[14..] == stamp
  {
    "snapshot at %s" + stamp
  }

  /** The commit for the snapshot of 2021-08-01 02:32:34 keeps the "%s". */
  lemma CommitMessageExample()
    ensures CommitMessage("20210801T023234Z") == "snapshot at %s20210801T023234Z"
  {
  }

  /** The repository at `repoPath`: whether it exists, its working tree, and
      its commits, oldest first. */
  class Repo {
    var initialized: bool
    var files: Tree
    var log: seq<Commit>

    /** A path where no repository exists yet. */
    constructor ()
      ensures !initialized && files == map[] && log == []
    {
      initialized := false;
      files := map[];
      log := [];
    }

    /** `git.PlainInit(repoPath, false)` (main.go:158): fails when the
        repository already exists, else creates one with no commits. */
    method PlainInit() returns (ok: bool)
      modifies this
      ensures ok == !old(initialized) && initialized
      ensures files == old(files)
      ensures log == if ok then [] else old(log)
    {
      ok := !initialized;
      if ok {
        initialized := true;
        log := [];
      }
    }

    /** `wt.Remove("/")` (main.go:212): every file of the tree is removed. */
    method RemoveAll()
      modifies this`files
      ensures files == map[]
    {
      files := map[];
    }

    /** `writeBinPkgs` (main.go:116-139): opens the group's file with
        O_WRONLY|O_CREATE and no O_TRUNC, then writes each record's encoding
        in order. The file ends up holding the group's encoding followed by
        whatever of its old content lies beyond; no other file changes. */
    method WriteBinPkgs(sel: Selector, encode: Record -> seq<byte>, pkgs: seq<Record>)
      requires pkgs != [] && Shardable(SourceName(pkgs[0]))
      modifies this`files
      ensures var path := BinaryPath(sel, SourceName(pkgs[0]));
        files == old(files)[path := Overlay(FileAt(old(files), path), EncodeAll(encode, pkgs))]
    {
      var src := SourceName(pkgs[0]);
      var loc := BinaryPath(sel, src);
      var original := FileAt(files, loc);
      ghost var before := files;
      files := files[loc := original];
      var pos := 0;
      var i := 0;
      while i < |pkgs|
        invariant 0 <= i <= |pkgs|
        invariant pos == |EncodeAll(encode, pkgs[..i])|
        invariant files == before[loc := Overlay(original, EncodeAll(encode, pkgs[..i]))]
      {
        var data := encode(pkgs[i]);
        ghost var done := EncodeAll(encode, pkgs[..i]);
        OverlayThenWrite(original, done, data);
        EncodeAllSnoc(encode, pkgs, i);
        files := files[loc := WriteAt(files[loc], pos, data)];
        pos := pos + |data|;
        i := i + 1;
      }
      assert pkgs[..|pkgs|] == pkgs;
    }

    /** `wt.AddWithOptions(All)` then `wt.Commit` (main.go:229-235): one commit
        recording the whole tree. */
    method AddAllAndCommit(message: string)
      modifies this`log
      ensures log == old(log) + [Commit(message, files)]
    {
      log := log + [Commit(message, files)];
    }

    /** The grouping loop of `run` (main.go:216-228): walks the sorted index
        keeping a pending group and its key, writes the pending group whenever
        a record does not join it, and never writes the final pending group.
        It panics at the first written group whose key is too short to shard,
        after the groups before it have been written. */
    method MaterializeIndex(sel: Selector, encode: Record -> seq<byte>, idx: seq<Record>)
      returns (panicked: bool)
      requires idx != []
      modifies this`files
      ensures var ws := WrittenRuns(idx);
        panicked == (WritablePrefix(ws) < |ws|)
        && files == WriteGroups(old(files), sel, encode, ws[..WritablePrefix(ws)])
    {
      var binPkgs := [idx[0]];
      var src := SourceName(idx[0]);
      ghost var written: seq<seq<Record>> := [];
      ScanStart(idx);
      var i := 1;
      while i < |idx|
        invariant Scanned(idx, i, written, binPkgs) && src == SourceName(binPkgs[0])
        invariant files == WriteGroups(old(files), sel, encode, written)
      {
        var pkg := idx[i];
        if pkg.source != "" && pkg.source == src {
          ScanJoin(idx, i, written, binPkgs);
          assert (binPkgs + [pkg])[0] == binPkgs[0];
          binPkgs := binPkgs + [pkg];
        } else {
          if !Shardable(src) {
            ScanPanic(idx, i, written, binPkgs);
            return true;
          }
          ScanBreak(idx, i, written, binPkgs);
          ghost var pre := files;
          WriteBinPkgs(sel, encode, binPkgs);
          assert files == WriteGroup(pre, sel, encode, binPkgs);
          WroteOneMore(old(files), pre, files, sel, encode, written, binPkgs);
          written := written + [binPkgs];
          binPkgs := [pkg];
          src := SourceName(pkg);
        }
        i := i + 1;
      }
      ScanEnd(idx, written, binPkgs);
      return false;
    }
  }
}
