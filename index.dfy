/** Binary package records, the key they are grouped under, where a group is
    written, and the canonical order of an index (main.go:101-119, 196-206). */
module Index {
  import opened Text

  /** One stanza of a binary `Packages` index: the fields the program reads,
      and every other field kept in order for re-encoding. An absent `Source`
      field is the empty string. */
  datatype Record = Record(package: string, source: string, version: string, others: seq<(string, string)>)

  /** `sourceName` (main.go:108-114): the raw `Source` field when it is
      non-empty, else the `Package` field, cut at its first space (so a
      "name (version)" source gives just the name). */
  function SourceName(r: Record): (key: string)
    ensures var field := if r.source != "" then r.source else r.package;
      key <= field && ' ' !in key && (|key| < |field| ==> field[|key|] == ' ')
  {
    FirstToken(if r.source != "" then r.source else r.package)
  }

  /** A `Source` field with a version in parentheses is keyed by the name
      before the space. */
  lemma VersionedSourceName()
    ensures SourceName(Record("libc6", "glibc (2.31-1)", "2.31-1+b1", [])) == "glibc"
  {
    FirstTokenBefore("glibc (2.31-1)", 5);
  }

  /** A record without a `Source` field is keyed by its package name. */
  lemma MissingSourceName()
    ensures SourceName(Record("bash", "", "5.1-2", [])) == "bash"
  {
    FirstTokenOfWord("bash");
  }

  /** A plain `Source` field is the key. */
  lemma PlainSourceName()
    ensures SourceName(Record("libc-bin", "glibc", "2.31-1", [])) == "glibc"
  {
    FirstTokenOfWord("glibc");
  }

  predicate HasLibPrefix(key: string)
  {
    "lib" <= key
  }

  /** Whether `dirForSource` can slice out the shard: `src[:4]` when the key
      starts with "lib", else `src[:1]`; a shorter key makes Go panic. */
  predicate Shardable(key: string)
  {
    if HasLibPrefix(key) then |key| >= 4 else |key| >= 1
  }

  /** The shard directory of a key: its first four characters when it starts
      with "lib", else its first character. */
  function Shard(key: string): (shard: string)
    requires Shardable(key)
    ensures shard <= key
    ensures |shard| == if HasLibPrefix(key) then 4 else 1
  {
    if HasLibPrefix(key) then key[..4] else key[..1]
  }

  /** `dirForSource` (main.go:101-106): the directory `shard/key`. */
  function DirForSource(key: string): (dir: string)
    requires Shardable(key)
    ensures '/' !in key ==> Split(dir, '/') == [Shard(key), key]
  {
    var dir := Join([Shard(key), key], '/');
    if '/' !in key then
      assert '/' !in Shard(key) by {
        forall i | 0 <= i < |Shard(key)| ensures Shard(key)[i] != '/' {
          assert Shard(key)[i] == key[i];
        }
      }
      SplitJoin([Shard(key), key], '/');
      dir
    else dir
  }

  /** Which directories hold one binary index of a distribution. */
  datatype Selector = Selector(dist: string, component: string, arch: string)

  /** The selector `run` fixes (main.go:152-154). */
  const Configured := Selector("sid", "main", "amd64")

  predicate PlainSelector(sel: Selector)
  {
    '/' !in sel.dist && '/' !in sel.component && '/' !in sel.arch
  }

  /** The configured `sid`, `main` and `amd64` contain no "/". */
  lemma ConfiguredPlain()
    ensures PlainSelector(Configured)
  {
  }

  /** The file `writeBinPkgs` writes for a group with this key (main.go:119):
      `dist/component/shard/key/binary-arch`. */
  function BinaryPath(sel: Selector, key: string): (path: string)
    requires Shardable(key)
    ensures PlainSelector(sel) && '/' !in key ==>
      Split(path, '/') == [sel.dist, sel.component, Shard(key), key, "binary-" + sel.arch]
  {
    var path := Join([sel.dist, sel.component, DirForSource(key), "binary-" + sel.arch], '/');
    if PlainSelector(sel) && '/' !in key then
      var elems := [sel.dist, sel.component, Shard(key), key, "binary-" + sel.arch];
      assert '/' !in Shard(key) by {
        forall i | 0 <= i < |Shard(key)| ensures Shard(key)[i] != '/' {
          assert Shard(key)[i] == key[i];
        }
      }
      assert '/' !in "binary-" + sel.arch by {
        forall i | 0 <= i < |"binary-" + sel.arch| ensures ("binary-" + sel.arch)[i] != '/' {
          if i >= 7 { assert ("binary-" + sel.arch)[i] == sel.arch[i - 7]; }
        }
      }
      JoinFive(sel.dist, sel.component, Shard(key), key, "binary-" + sel.arch);
      assert Join(elems, '/') == path;
      SplitJoin(elems, '/');
      path
    else path
  }

  lemma JoinCons(p: string, parts: seq<string>, sep: char)
    requires |parts| >= 1
    ensures Join([p] + parts, sep) == p + [sep] + Join(parts, sep)
  {
    assert ([p] + parts)[1..] == parts;
  }

  lemma JoinFive(a: string, b: string, c: string, d: string, e: string)
    ensures Join([a, b, Join([c, d], '/'), e], '/') == Join([a, b, c, d, e], '/')
  {
    var cd := Join([c, d], '/');
    JoinCons(c, [d], '/');
    assert [c] + [d] == [c, d];
    JoinCons(d, [e], '/');
    assert [d] + [e] == [d, e];
    JoinCons(c, [d, e], '/');
    assert [c] + [d, e] == [c, d, e];
    JoinCons(b, [c, d, e], '/');
    assert [b] + [c, d, e] == [b, c, d, e];
    JoinCons(a, [b, c, d, e], '/');
    assert [a] + [b, c, d, e] == [a, b, c, d, e];
    JoinCons(cd, [e], '/');
    assert [cd] + [e] == [cd, e];
    JoinCons(b, [cd, e], '/');
    assert [b] + [cd, e] == [b, cd, e];
    JoinCons(a, [b, cd, e], '/');
    assert [a] + [b, cd, e] == [a, b, cd, e];
  }

  /** Distinct keys are written to distinct files: two groups share a file
      exactly when they share a key. */
  lemma BinaryPathInjective(sel: Selector, k1: string, k2: string)
    requires PlainSelector(sel) && Shardable(k1) && Shardable(k2) && '/' !in k1 && '/' !in k2
    requires BinaryPath(sel, k1) == BinaryPath(sel, k2)
    ensures k1 == k2
  {
    assert Split(BinaryPath(sel, k1), '/')[3] == k1;
    assert Split(BinaryPath(sel, k2), '/')[3] == k2;
  }

  lemma PathExamples()
    ensures Shard("libfoo") == "libf" && Shard("bash") == "b"
    ensures DirForSource("glibc") == "g/glibc"
  {
    assert HasLibPrefix("libfoo") && !HasLibPrefix("bash") && !HasLibPrefix("glibc") by {
      assert "libfoo"[..3] == "lib";
      assert "bash"[0] != 'l' && "glibc"[0] != 'l';
    }
    assert Join(["g", "glibc"], '/') == "g/glibc";
  }

  // ---------------------------------------------------------------------
  // The canonical order of an index (main.go:196-206).

  /** `version.Compare(a, b) < 0`, for the version comparison `vcmp` (Debian
      Policy Manual section 5.6.12) given as a parameter. */
  predicate VersionLess(vcmp: (string, string) -> int, a: string, b: string)
  {
    vcmp(a, b) < 0
  }

  predicate VersionEquivalent(vcmp: (string, string) -> int, a: string, b: string)
  {
    !VersionLess(vcmp, a, b) && !VersionLess(vcmp, b, a)
  }

  /** What `sort.Slice` demands of its comparison: a strict weak order. */
  ghost predicate VersionOrder(vcmp: (string, string) -> int)
  {
    && (forall a :: !VersionLess(vcmp, a, a))
    && (forall a, b, c :: VersionLess(vcmp, a, b) && VersionLess(vcmp, b, c) ==> VersionLess(vcmp, a, c))
    && (forall a, b, c :: VersionEquivalent(vcmp, a, b) && VersionEquivalent(vcmp, b, c) ==> VersionEquivalent(vcmp, a, c))
  }

  /** The comparison closure passed to `sort.Slice`: by source key, then by
      package name, both with Go's `<` on strings, then by version. */
  predicate RecordLess(vcmp: (string, string) -> int, a: Record, b: Record)
  {
    var sa, sb := SourceName(a), SourceName(b);
    if sa != sb then LexLess(sa, sb)
    else if a.package != b.package then LexLess(a.package, b.package)
    else VersionLess(vcmp, a.version, b.version)
  }

  predicate RecordEquivalent(vcmp: (string, string) -> int, a: Record, b: Record)
  {
    !RecordLess(vcmp, a, b) && !RecordLess(vcmp, b, a)
  }

  /** Two records compare equal exactly when they share key and package and
      their versions compare equal. */
  lemma RecordEquivalentMeaning(vcmp: (string, string) -> int, a: Record, b: Record)
    ensures RecordEquivalent(vcmp, a, b) <==>
      SourceName(a) == SourceName(b) && a.package == b.package && VersionEquivalent(vcmp, a.version, b.version)
  {
    if SourceName(a) != SourceName(b) {
      LexTotal(SourceName(a), SourceName(b));
    } else if a.package != b.package {
      LexTotal(a.package, b.package);
    }
  }

  lemma RecordIrreflexive(vcmp: (string, string) -> int, a: Record)
    requires VersionOrder(vcmp)
    ensures !RecordLess(vcmp, a, a)
  {
  }

  lemma RecordTransitive(vcmp: (string, string) -> int, a: Record, b: Record, c: Record)
    requires VersionOrder(vcmp)
    requires RecordLess(vcmp, a, b) && RecordLess(vcmp, b, c)
    ensures RecordLess(vcmp, a, c)
  {
    var sa, sb, sc := SourceName(a), SourceName(b), SourceName(c);
    if sa != sb && sb != sc {
      LexTransitive(sa, sb, sc);
      if sa == sc { LexIrreflexive(sa); LexTransitive(sa, sb, sa); }
    } else if sa == sb && sb == sc {
      if a.package != b.package && b.package != c.package {
        LexTransitive(a.package, b.package, c.package);
        if a.package == c.package { LexTransitive(a.package, b.package, a.package); LexIrreflexive(a.package); }
      }
    }
  }

  /** The comparison is a strict weak order whenever the version comparison
      is one, so `sort.Slice` is given a comparison it can sort by. */
  lemma RecordOrderIsStrictWeak(vcmp: (string, string) -> int)
    requires VersionOrder(vcmp)
    ensures forall a :: !RecordLess(vcmp, a, a)
    ensures forall a, b, c :: RecordLess(vcmp, a, b) && RecordLess(vcmp, b, c) ==> RecordLess(vcmp, a, c)
    ensures forall a, b, c :: RecordEquivalent(vcmp, a, b) && RecordEquivalent(vcmp, b, c) ==> RecordEquivalent(vcmp, a, c)
  {
    forall a, b, c | RecordLess(vcmp, a, b) && RecordLess(vcmp, b, c) ensures RecordLess(vcmp, a, c) {
      RecordTransitive(vcmp, a, b, c);
    }
    forall a, b, c | RecordEquivalent(vcmp, a, b) && RecordEquivalent(vcmp, b, c) ensures RecordEquivalent(vcmp, a, c) {
      RecordEquivalentMeaning(vcmp, a, b);
      RecordEquivalentMeaning(vcmp, b, c);
      RecordEquivalentMeaning(vcmp, a, c);
    }
  }

  lemma RecordAsymmetric(vcmp: (string, string) -> int, a: Record, b: Record)
    requires VersionOrder(vcmp)
    requires RecordLess(vcmp, a, b)
    ensures !RecordLess(vcmp, b, a)
  {
    if RecordLess(vcmp, b, a) {
      RecordTransitive(vcmp, a, b, a);
    }
  }

  /** Adjacent records never compare out of order. */
  predicate Sorted(vcmp: (string, string) -> int, s: seq<Record>)
  {
    forall i :: 0 < i < |s| ==> !RecordLess(vcmp, s[i], s[i - 1])
  }

  /** The record `c` is not before `a` when neither `b` is before `a` nor `c`
      before `b`. */
  lemma NotLessTransitive(vcmp: (string, string) -> int, a: Record, b: Record, c: Record)
    requires VersionOrder(vcmp)
    requires !RecordLess(vcmp, b, a) && !RecordLess(vcmp, c, b)
    ensures !RecordLess(vcmp, c, a)
  {
    RecordOrderIsStrictWeak(vcmp);
    assert RecordLess(vcmp, c, a) && RecordLess(vcmp, a, b) ==> RecordLess(vcmp, c, b);
    assert RecordLess(vcmp, b, c) && RecordLess(vcmp, c, a) ==> RecordLess(vcmp, b, a);
    assert RecordEquivalent(vcmp, a, b) && RecordEquivalent(vcmp, b, c) ==> RecordEquivalent(vcmp, a, c);
  }

  /** Under a strict weak order, sorted adjacent pairs mean every later record
      is at least every earlier one. */
  lemma {:induction false} SortedAllPairs(vcmp: (string, string) -> int, s: seq<Record>, i: nat, j: nat)
    requires VersionOrder(vcmp) && Sorted(vcmp, s)
    requires i <= j < |s|
    ensures !RecordLess(vcmp, s[j], s[i])
    decreases j - i
  {
    if i == j {
      RecordIrreflexive(vcmp, s[i]);
    } else {
      SortedAllPairs(vcmp, s, i + 1, j);
      NotLessTransitive(vcmp, s[i], s[i + 1], s[j]);
    }
  }

  lemma SortedCons(vcmp: (string, string) -> int, h: Record, t: seq<Record>)
    requires Sorted(vcmp, t)
    requires t != [] ==> !RecordLess(vcmp, t[0], h)
    ensures Sorted(vcmp, [h] + t)
  {
    var r := [h] + t;
    forall i | 0 < i < |r| ensures !RecordLess(vcmp, r[i], r[i - 1]) {
      if i > 1 {
        assert r[i] == t[i - 1] && r[i - 1] == t[i - 2];
      }
    }
  }

  /** One insertion step: `x` placed before the first record not before it. */
  function Insert(vcmp: (string, string) -> int, x: Record, s: seq<Record>): (r: seq<Record>)
    ensures multiset(r) == multiset(s) + multiset{x}
    ensures |r| == |s| + 1 && (r[0] == x || (s != [] && r[0] == s[0]))
  {
    if s == [] || !RecordLess(vcmp, s[0], x) then
      [x] + s
    else
      assert s == [s[0]] + s[1..];
      [s[0]] + Insert(vcmp, x, s[1..])
  }

  lemma {:induction false} InsertSorted(vcmp: (string, string) -> int, x: Record, s: seq<Record>)
    requires VersionOrder(vcmp) && Sorted(vcmp, s)
    ensures Sorted(vcmp, Insert(vcmp, x, s))
  {
    if s == [] || !RecordLess(vcmp, s[0], x) {
      SortedCons(vcmp, x, s);
    } else {
      assert Sorted(vcmp, s[1..]) by {
        forall i | 0 < i < |s[1..]| ensures !RecordLess(vcmp, s[1..][i], s[1..][i - 1]) {
          assert s[1..][i] == s[i + 1] && s[1..][i - 1] == s[i];
        }
      }
      var tail := Insert(vcmp, x, s[1..]);
      InsertSorted(vcmp, x, s[1..]);
      RecordAsymmetric(vcmp, s[0], x);
      assert |s| > 1 ==> !RecordLess(vcmp, s[1], s[0]);
      SortedCons(vcmp, s[0], tail);
    }
  }

  /** The index as `sort.Slice` leaves it (main.go:196-206): a permutation of
      the parsed index, sorted by (key, package, version). `sort.Slice` is not
      stable, so records that compare equal may come in another order; this is
      one order it may produce. */
  function SortIndex(vcmp: (string, string) -> int, idx: seq<Record>): (r: seq<Record>)
    requires VersionOrder(vcmp)
    ensures multiset(r) == multiset(idx)
    ensures Sorted(vcmp, r)
  {
    if idx == [] then []
    else
      assert idx == [idx[0]] + idx[1..];
      var rest := SortIndex(vcmp, idx[1..]);
      InsertSorted(vcmp, idx[0], rest);
      Insert(vcmp, idx[0], rest)
  }
}
