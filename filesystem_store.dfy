/** A BLOB store that keeps each BLOB in a file under a root directory, and
    writes it by creating a temporary file beside the target and renaming it
    into place. The file system is modelled as a map from paths to nodes. */
module Filesystem {
  import opened Common
  import opened KeyConstraint

  type Path = string

  /** Unix permission bits. Ruby's `mode & ~umask` on non-negative Integers
      is the same bitwise operation. */
  type Mode = bv32

  const FileCreateMode: Mode := 0x1B6   // 0666
  const DirCreateMode: Mode := 0x1FF    // 0777
  const OwnerRead: Mode := 0x100        // 0400
  const OwnerWrite: Mode := 0x080       // 0200
  const ChunkSize := 512

  /** A file-system entry: a regular file with its content, or a directory. */
  datatype Node = File(content: Bytes, mode: Mode) | Dir(mode: Mode)

  /** `apply_umask`: the bits of `mode` that `umask` does not clear. */
  function ApplyUmask(mode: Mode, umask: Mode): (r: Mode)
    ensures r & umask == 0
    ensures r | (mode & umask) == mode
  {
    mode & !umask
  }

  /** The permissions the examples look for. */
  lemma UmaskExamples()
    ensures ApplyUmask(FileCreateMode, 0x17) == 0x1A0   // 0666 under 0027 is 0640
    ensures ApplyUmask(DirCreateMode, 0x17) == 0x1E8    // 0777 under 0027 is 0750
    ensures forall m: Mode :: ApplyUmask(m, 0) == m
  {
  }

  predicate IsDir(nodes: map<Path, Node>, p: Path)
  {
    p in nodes && nodes[p].Dir?
  }

  // ---------------------------------------------------------------------------
  // Paths. `Pathname` keeps a repeated `/` inside the strings it builds, and
  // the operating system reads any run of `/` as one separator; the model
  // names every entry by that resolved form.

  /** No `//` anywhere, and no trailing `/` except in the root itself. */
  predicate IsCanonical(p: Path)
  {
    NoRepeatedSlash(p) && (|p| > 1 ==> p[|p| - 1] != '/')
  }

  /** One path segment: a non-empty name without `/`. */
  predicate IsSegment(s: Path)
  {
    s != [] && forall i :: 0 <= i < |s| ==> s[i] != '/'
  }

  /** `p` with every run of `/` collapsed into one. */
  function Squeeze(p: Path): Path
    decreases |p|
  {
    if |p| <= 1 then p
    else if p[0] == '/' && p[1] == '/' then Squeeze(p[1..])
    else [p[0]] + Squeeze(p[1..])
  }

  predicate NoRepeatedSlash(p: Path)
  {
    forall i :: 0 <= i < |p| - 1 ==> !(p[i] == '/' && p[i + 1] == '/')
  }

  /** Squeezing keeps the first and last characters. */
  lemma {:induction false} SqueezeEnds(p: Path)
    ensures |Squeeze(p)| <= |p|
    ensures (Squeeze(p) == []) == (p == [])
    ensures p != [] ==> Squeeze(p)[0] == p[0] && Squeeze(p)[|Squeeze(p)| - 1] == p[|p| - 1]
    decreases |p|
  {
    if |p| > 1 {
      SqueezeEnds(p[1..]);
    }
  }

  /** Squeezing leaves no `//`. */
  lemma {:induction false} SqueezeNoRepeat(p: Path)
    ensures NoRepeatedSlash(Squeeze(p))
    decreases |p|
  {
    if |p| > 1 {
      SqueezeNoRepeat(p[1..]);
      if !(p[0] == '/' && p[1] == '/') {
        SqueezeEnds(p[1..]);
        var rest := Squeeze(p[1..]);
        var r := [p[0]] + rest;
        forall i | 0 <= i < |r| - 1 ensures !(r[i] == '/' && r[i + 1] == '/') {
          if i > 0 {
            assert r[i] == rest[i - 1] && r[i + 1] == rest[i];
          } else {
            assert r[1] == rest[0] == p[1];
          }
        }
      }
    }
  }

  /** A path without `//` is left as it is. */
  lemma {:induction false} SqueezeKeeps(p: Path)
    requires NoRepeatedSlash(p)
    ensures Squeeze(p) == p
    decreases |p|
  {
    if |p| > 1 {
      var p1 := p[1..];
      assert NoRepeatedSlash(p1) by {
        forall i | 0 <= i < |p1| - 1 ensures !(p1[i] == '/' && p1[i + 1] == '/') {
          assert p1[i] == p[i + 1] && p1[i + 1] == p[i + 2];
        }
      }
      SqueezeKeeps(p1);
      assert !(p[0] == '/' && p[1] == '/');
      assert p == [p[0]] + p1;
    }
  }

  /** The name the operating system resolves `p` to: runs of `/` collapsed,
      and a trailing `/` dropped unless `p` names the root. */
  function Canonical(p: Path): Path
  {
    var s := Squeeze(p);
    if |s| > 1 && s[|s| - 1] == '/' then s[..|s| - 1] else s
  }

  /** The resolved name is canonical, a canonical name resolves to itself,
      and resolving keeps the first character. */
  lemma CanonicalResolves(p: Path)
    ensures IsCanonical(Canonical(p))
    ensures IsCanonical(p) ==> Canonical(p) == p
    ensures (Canonical(p) == []) == (p == [])
    ensures p != [] ==> Canonical(p)[0] == p[0]
  {
    SqueezeEnds(p);
    SqueezeNoRepeat(p);
    if NoRepeatedSlash(p) {
      SqueezeKeeps(p);
    }
  }

  /** `Pathname#+` for parts free of `.` and `..` segments, as the operating
      system resolves the result: an absolute part replaces the directory,
      an empty part leaves the directory, and otherwise the two are joined
      by one `/`. */
  function Join(dir: Path, rel: Path): Path
  {
    if rel != [] && rel[0] == '/' then Canonical(rel)
    else if rel == [] then Canonical(dir)
    else if dir == [] || dir == "." then Canonical(rel)
    else if dir == "/" then Canonical("/" + rel)
    else Canonical(dir + "/" + rel)
  }

  /** A segment joined onto a canonical directory: the directory, one `/`,
      and the segment, with nothing to resolve. */
  lemma JoinSegment(dir: Path, seg: Path)
    requires IsCanonical(dir) && dir != [] && IsSegment(seg)
    ensures IsCanonical(Join(dir, seg))
    ensures dir == "." ==> Join(dir, seg) == seg
    ensures dir == "/" ==> Join(dir, seg) == "/" + seg
    ensures dir != "." && dir != "/" ==> Join(dir, seg) == dir + "/" + seg
  {
    if dir == "." {
      CanonicalResolves(seg);
    } else if dir == "/" {
      var s := "/" + seg;
      assert forall i :: 1 <= i < |s| ==> s[i] == seg[i - 1];
      CanonicalResolves(s);
    } else {
      ParentOfSlashSegment(dir, seg);
      CanonicalResolves(dir + "/" + seg);
    }
  }

  /** A canonical directory other than the root, one `/` and a segment make
      a canonical path whose parent is that directory. */
  lemma ParentOfSlashSegment(dir: Path, seg: Path)
    requires IsCanonical(dir) && dir != [] && dir != "/" && IsSegment(seg)
    ensures IsCanonical(dir + "/" + seg)
    ensures Parent(dir + "/" + seg) == dir
  {
    var s := dir + "/" + seg;
    assert dir[|dir| - 1] != '/';
    forall i | 0 <= i < |s| - 1 ensures !(s[i] == '/' && s[i + 1] == '/') {
      if i < |dir| - 1 {
        assert s[i] == dir[i] && s[i + 1] == dir[i + 1];
      } else if i == |dir| - 1 {
        assert s[i] == dir[i];
      } else {
        assert s[i + 1] == seg[i + 1 - |dir| - 1];
      }
    }
    assert s[|s| - 1] == seg[|seg| - 1];
    CanonicalResolves(s);
    assert LastIndexOf(s, '/') == |dir| by {
      assert s[|dir|] == '/';
      assert forall k :: |dir| < k < |s| ==> s[k] == seg[k - |dir| - 1];
    }
    assert s[..|dir|] == dir;
  }

  /** `Pathname#parent` for a path without `.` and `..` segments: everything
      before the last separator of the resolved path, `/` for a top-level
      entry and `.` for a bare name. */
  function Parent(p: Path): (r: Path)
    ensures r != []
  {
    var c := Canonical(p);
    var i := LastIndexOf(c, '/');
    if i < 0 then "." else if i == 0 then "/" else c[..i]
  }

  /** The directory of a segment joined onto a directory is that directory:
      the temporary file is made beside the target. */
  lemma ParentOfJoin(dir: Path, seg: Path)
    requires IsCanonical(dir) && dir != [] && IsSegment(seg)
    ensures Parent(Join(dir, seg)) == dir
  {
    JoinSegment(dir, seg);
    var j := Join(dir, seg);
    CanonicalResolves(j);
    if dir == "." {
      assert LastIndexOf(seg, '/') < 0;
    } else if dir == "/" {
      assert LastIndexOf(j, '/') == 0 by {
        assert forall k :: 0 < k < |j| ==> j[k] == seg[k - 1];
      }
    } else {
      ParentOfSlashSegment(dir, seg);
    }
  }

  /** Collapsing runs of `/` in a path followed by `/` and a segment: the
      path's own runs collapse, and one `/` is shared when it already ends
      with one. */
  lemma {:induction false} SqueezeAppendSegment(p: Path, seg: Path)
    requires p != [] && IsSegment(seg)
    ensures Squeeze(p + "/" + seg) ==
      if p[|p| - 1] == '/' then Squeeze(p) + seg else Squeeze(p) + "/" + seg
    decreases |p|
  {
    var q := "/" + seg;
    assert NoRepeatedSlash(q) by {
      assert forall i :: 1 <= i < |q| ==> q[i] == seg[i - 1];
    }
    SqueezeKeeps(q);
    var x := p + "/" + seg;
    assert x == p + q;
    if |p| == 1 {
      assert x[1..] == q;
    } else {
      SqueezeAppendSegment(p[1..], seg);
      assert x[1..] == p[1..] + "/" + seg;
    }
  }

  /** A segment joined onto any non-empty directory lies directly in the
      directory that name resolves to: `Pathname` may keep a trailing or
      doubled `/` in the string, but the parent the operating system sees is
      the resolved directory. */
  lemma JoinResolvesParent(dir: Path, seg: Path)
    requires dir != [] && IsSegment(seg)
    ensures Parent(Join(dir, seg)) == Canonical(dir)
  {
    CanonicalResolves(dir);
    if dir == "." || dir == "/" {
      ParentOfJoin(dir, seg);
    } else {
      var s := Squeeze(dir);
      var c := Canonical(dir);
      SqueezeEnds(dir);
      SqueezeNoRepeat(dir);
      SqueezeAppendSegment(dir, seg);
      var x := Squeeze(dir + "/" + seg);
      assert x[|x| - 1] == seg[|seg| - 1];
      assert Join(dir, seg) == x;
      if dir[|dir| - 1] == '/' && |s| == 1 {
        assert c == "/" && x == "/" + seg;
        ParentOfJoin("/", seg);
        JoinSegment("/", seg);
      } else if dir[|dir| - 1] == '/' {
        assert s == c + "/";
        assert x == c + "/" + seg;
        ParentOfSlashSegment(c, seg);
      } else {
        assert c == s && c != "/";
        ParentOfSlashSegment(c, seg);
      }
    }
  }

  /** A canonical directory named with a trailing `/` resolves to itself. */
  lemma RootTrailingSlash(dir: Path)
    requires IsCanonical(dir) && dir != [] && dir != "/"
    ensures Canonical(dir + "/") == dir
  {
    var x := dir + "/";
    assert NoRepeatedSlash(x) by {
      assert forall i :: 0 <= i < |dir| ==> x[i] == dir[i];
    }
    SqueezeKeeps(x);
    assert x[..|x| - 1] == dir;
  }

  /** Dropping one of two adjacent separators names the same path. */
  lemma {:induction false} SqueezeDropsRepeat(p: Path, i: nat)
    requires i < |p| - 1 && p[i] == '/' && p[i + 1] == '/'
    ensures Squeeze(p) == Squeeze(p[..i] + p[i + 1..])
    decreases i
  {
    var q := p[..i] + p[i + 1..];
    if i == 0 {
      assert q == p[1..];
    } else {
      SqueezeDropsRepeat(p[1..], i - 1);
      assert p[1..][..i - 1] + p[1..][i..] == p[1..i] + p[i + 1..];
      assert q[0] == p[0] && q[1..] == p[1..i] + p[i + 1..];
      if i == 1 {
        assert q[1] == p[2] == '/' && p[1..][1..] == p[2..] && q[1..] == p[2..];
      } else {
        assert q[1] == p[1];
      }
    }
  }

  /** Three separators between two parts name the same path as one. */
  lemma SqueezeTripleSlash(a: Path, b: Path)
    requires NoRepeatedSlash(a + "/" + b)
    ensures Squeeze(a + "///" + b) == a + "/" + b
  {
    var p, q, c := a + "///" + b, a + "//" + b, a + "/" + b;
    assert p[|a|] == '/' && p[|a| + 1] == '/';
    assert p[..|a|] + p[|a| + 1..] == q;
    SqueezeDropsRepeat(p, |a|);
    assert q[|a|] == '/' && q[|a| + 1] == '/';
    assert q[..|a|] + q[|a| + 1..] == c;
    SqueezeDropsRepeat(q, |a|);
    SqueezeKeeps(c);
  }

  /** An empty part leaves the directory. */
  lemma JoinEmpty(dir: Path)
    requires IsCanonical(dir)
    ensures Join(dir, "") == dir
  {
    CanonicalResolves(dir);
  }

  /** A two-character key `k` shards to `k///k` (its missing slices are
      empty): the repeated separators name the same file as single ones,
      and the directory `mkdir_p` makes for it is `dir/k`. */
  lemma ShortKeyShardPath(dir: Path, key: Path)
    requires IsCanonical(dir) && dir != [] && dir != "." && dir != "/" && IsSegment(key)
    ensures Join(dir, key + "///" + key) == dir + "/" + key + "/" + key
    ensures Parent(Join(dir, key + "///" + key)) == dir + "/" + key
  {
    var d := dir + "/" + key;
    JoinSegment(dir, key);
    assert d != "." && d != "/" by { assert |d| > 1 && d[|d| - 1] != '/'; }
    JoinSegment(d, key);
    var c := d + "/" + key;
    assert dir + "/" + (key + "///" + key) == d + "///" + key;
    SqueezeTripleSlash(d, key);
    assert c[|c| - 1] == key[|key| - 1];
    ParentOfJoin(d, key);
  }

  /** The directories `mkdir_p` walks through to make `d`: each prefix of `d`
      that ends just before a `/`, and `d` itself. */
  function Prefixes(d: Path): (r: set<Path>)
    ensures forall p :: p in r ==> 0 < |p| <= |d| && p == d[..|p|]
    ensures d != [] ==> d in r
  {
    assert d != [] ==> d[..|d|] == d;
    set i | 0 < i <= |d| && (i == |d| || d[i] == '/') :: d[..i]
  }

  /** Some prefix of `d` is a regular file, so no path under `d` can be
      opened (`ENOTDIR`) or made. */
  predicate Blocked(nodes: map<Path, Node>, d: Path)
  {
    exists p | p in Prefixes(d) :: p in nodes && nodes[p].File?
  }

  /** `FileUtils.mkdir_p(d, mode: m)`: every missing prefix of `d` becomes a
      directory, and `mkdir_p` chmods each one it makes to exactly `m`. */
  function MkdirP(nodes: map<Path, Node>, d: Path, m: Mode): (r: map<Path, Node>)
    ensures forall p :: p in nodes ==> p in r && r[p] == nodes[p]
    ensures forall p :: p in r && p !in nodes ==> p in Prefixes(d) && r[p] == Dir(m)
    ensures forall p :: p in Prefixes(d) ==> p in r
  {
    nodes + map p | p in Prefixes(d) && p !in nodes :: Dir(m)
  }

  // ---------------------------------------------------------------------------
  // Reading in chunks.

  /** The successive results of `io.read(512)` until it returns nil. */
  function Chunks(content: Bytes): seq<Bytes>
    decreases |content|
  {
    if content == [] then []
    else if |content| <= ChunkSize then [content]
    else [content[..ChunkSize]] + Chunks(content[ChunkSize..])
  }

  /** The chunks are non-empty, at most 512 bytes, full except the last, and
      together they are the file. */
  lemma {:induction false} ChunksReassemble(content: Bytes)
    ensures Concat(Chunks(content)) == content
    ensures forall i :: 0 <= i < |Chunks(content)| ==> 0 < |Chunks(content)[i]| <= ChunkSize
    ensures forall i :: 0 <= i < |Chunks(content)| - 1 ==> |Chunks(content)[i]| == ChunkSize
    decreases |content|
  {
    if content == [] {
    } else if |content| <= ChunkSize {
      assert Concat([content]) == content + Concat([]);
    } else {
      var rest := content[ChunkSize..];
      ChunksReassemble(rest);
      var cs := [content[..ChunkSize]] + Chunks(rest);
      assert cs[1..] == Chunks(rest);
      assert content == content[..ChunkSize] + rest;
      assert forall i :: 1 <= i < |cs| ==> cs[i] == Chunks(rest)[i - 1];
    }
  }

  /** One `read(512)` from position `pos`: the next chunk, and the bytes
      read so far grow by it. */
  lemma NextChunk(content: Bytes, pos: nat, n: nat)
    requires pos < |content| && n == (if |content| - pos < ChunkSize then |content| - pos else ChunkSize)
    ensures Chunks(content[pos..]) == [content[pos..pos + n]] + Chunks(content[pos + n..])
    ensures Concat([content[pos..pos + n]]) == content[pos..pos + n]
    ensures content[..pos] + content[pos..pos + n] == content[..pos + n]
  {
    if |content| - pos <= ChunkSize {
      assert content[pos..] == content[pos..pos + n] && content[pos + n..] == [];
    } else {
      assert content[pos..][..n] == content[pos..pos + n];
      assert content[pos..][n..] == content[pos + n..];
    }
    assert Concat([content[pos..pos + n]]) == content[pos..pos + n] + Concat([]);
  }

  /** The `while (chunk = io.read(512))` loop over an open file: the chunks
      in order, which together are the file. */
  method ReadChunks(content: Bytes) returns (chunks: seq<Bytes>)
    ensures chunks == Chunks(content)
    ensures Concat(chunks) == content
  {
    chunks := [];
    var pos := 0;
    while pos < |content|
      invariant 0 <= pos <= |content|
      invariant chunks + Chunks(content[pos..]) == Chunks(content)
      invariant Concat(chunks) == content[..pos]
      decreases |content| - pos
    {
      var n := if |content| - pos < ChunkSize then |content| - pos else ChunkSize;
      NextChunk(content, pos, n);
      ConcatAppend(chunks, [content[pos..pos + n]]);
      chunks := chunks + [content[pos..pos + n]];
      pos := pos + n;
    }
    assert content[pos..] == [] && content[..pos] == content;
  }

  // ---------------------------------------------------------------------------
  // The write protocol, as a function of the file system before the write.

  /** Failures the environment may inject into a write: the write into the
      temporary file raising `IOError`, and how many renames in a row raise
      `ESTALE` (a stale NFS handle). */
  datatype Faults = Faults(writeFails: bool, staleRenames: nat)

  /** What a write leaves behind: its outcome, the new file system, and the
      directories whose times it touched. */
  datatype WriteEffect = WriteEffect(outcome: Outcome, nodes: map<Path, Node>, touched: seq<Path>)

  /** The file system once the temporary file can be created: the target's
      directory, made by `mkdir_p` with `0777 & ~umask` if it was missing. */
  function Prepared(nodes: map<Path, Node>, storeDir: Path, umask: Mode): map<Path, Node>
  {
    if IsDir(nodes, storeDir) then nodes else MkdirP(nodes, storeDir, ApplyUmask(DirCreateMode, umask))
  }

  /** `atomic_create` followed by the content write, for a handle on `path`
      with the store's `umask`, while the process umask is `processUmask`. */
  function AtomicCreate(nodes: map<Path, Node>, path: Path, tmpName: string, content: Bytes,
                        umask: Mode, processUmask: Mode, faults: Faults): WriteEffect
  {
    var storeDir := Parent(path);
    var tmpPath := Join(storeDir, tmpName);
    if !IsDir(nodes, storeDir) && Blocked(nodes, storeDir) then
      WriteEffect(Fail(SystemCallError(ENOTDIR)), nodes, [])
    else
      var ready := Prepared(nodes, storeDir, umask);
      if tmpPath in ready then
        WriteEffect(Fail(SystemCallError(EEXIST)), ready, [])
      else if faults.writeFails then
        WriteEffect(Fail(IOError), ready[tmpPath := File([], ApplyUmask(FileCreateMode, processUmask))], [])
      else
        var mode := if umask == processUmask then ApplyUmask(FileCreateMode, processUmask)
                    else ApplyUmask(FileCreateMode, umask);
        var written := ready[tmpPath := File(content, mode)];
        var touched := if faults.staleRenames == 0 then [] else [storeDir];
        if faults.staleRenames >= 2 then
          WriteEffect(Fail(SystemCallError(ESTALE)), written, touched)
        else if IsDir(written, path) then
          WriteEffect(Fail(SystemCallError(EISDIR)), written, touched)
        else
          WriteEffect(Pass, (written - {tmpPath})[path := written[tmpPath]], touched)
  }

  /** The write reaches the rename: the directory can be had, the temporary
      name is free and the content was written. */
  predicate ReachesRename(nodes: map<Path, Node>, path: Path, tmpName: string, umask: Mode, faults: Faults)
  {
    var storeDir := Parent(path);
    && (IsDir(nodes, storeDir) || !Blocked(nodes, storeDir))
    && Join(storeDir, tmpName) !in Prepared(nodes, storeDir, umask)
    && !faults.writeFails
  }

  /** A write succeeds exactly when it reaches the rename, at most one rename
      raises `ESTALE`, and the target is not a directory. */
  lemma WriteSucceedsIff(nodes: map<Path, Node>, path: Path, tmpName: string, content: Bytes,
                         umask: Mode, processUmask: Mode, faults: Faults)
    requires path !in Prefixes(Parent(path))
    ensures AtomicCreate(nodes, path, tmpName, content, umask, processUmask, faults).outcome.Pass? <==>
      ReachesRename(nodes, path, tmpName, umask, faults) && faults.staleRenames <= 1 && !IsDir(nodes, path)
  {
    var storeDir := Parent(path);
    var tmpPath := Join(storeDir, tmpName);
    if ReachesRename(nodes, path, tmpName, umask, faults) && faults.staleRenames <= 1 {
      var ready := Prepared(nodes, storeDir, umask);
      assert IsDir(ready, path) <==> IsDir(nodes, path);
    }
  }

  /** The target is replaced only by a successful write: a write that raises
      leaves whatever was at the target path (if anything) untouched. */
  lemma FailedWriteKeepsTarget(nodes: map<Path, Node>, path: Path, tmpName: string, content: Bytes,
                               umask: Mode, processUmask: Mode, faults: Faults)
    requires path !in Prefixes(Parent(path)) && Join(Parent(path), tmpName) != path
    ensures var e := AtomicCreate(nodes, path, tmpName, content, umask, processUmask, faults);
      e.outcome.Fail? ==> Lookup(e.nodes, path) == Lookup(nodes, path)
  {
  }

  /** After a successful write the target holds the content with mode
      `0666 & ~umask` whether or not a chmod was needed, the temporary file is
      gone, every other entry is as it was, and the only new entries are
      directories made with `0777 & ~umask` on the way to the target. */
  lemma SuccessfulWrite(nodes: map<Path, Node>, path: Path, tmpName: string, content: Bytes,
                        umask: Mode, processUmask: Mode, faults: Faults)
    requires path !in Prefixes(Parent(path))
    ensures var e := AtomicCreate(nodes, path, tmpName, content, umask, processUmask, faults);
      e.outcome.Pass? ==>
        && path in e.nodes && e.nodes[path] == File(content, ApplyUmask(FileCreateMode, umask))
        && (Join(Parent(path), tmpName) != path ==> Join(Parent(path), tmpName) !in e.nodes)
        && (forall p :: p in nodes && p != path ==> p in e.nodes && e.nodes[p] == nodes[p])
        && (forall p :: p in e.nodes && p !in nodes && p != path ==>
              p in Prefixes(Parent(path)) && e.nodes[p] == Dir(ApplyUmask(DirCreateMode, umask)))
  {
  }

  /** A stale rename is retried exactly once, after touching the target's
      directory; a second stale rename raises `ESTALE`. */
  lemma StaleRenameRetriedOnce(nodes: map<Path, Node>, path: Path, tmpName: string, content: Bytes,
                               umask: Mode, processUmask: Mode, faults: Faults)
    requires ReachesRename(nodes, path, tmpName, umask, faults)
    ensures var e := AtomicCreate(nodes, path, tmpName, content, umask, processUmask, faults);
      && e.touched == (if faults.staleRenames == 0 then [] else [Parent(path)])
      && (faults.staleRenames >= 2 ==> e.outcome == Fail(SystemCallError(ESTALE)))
  {
  }

  /** The umask example: under umask 0027 the file gets 0640 and a directory
      made for it gets 0750. */
  lemma Umask027Write(nodes: map<Path, Node>, path: Path, tmpName: string, content: Bytes,
                      processUmask: Mode, faults: Faults)
    requires path !in Prefixes(Parent(path)) && !IsDir(nodes, Parent(path))
    ensures var e := AtomicCreate(nodes, path, tmpName, content, 0x17, processUmask, faults);
      e.outcome.Pass? ==>
        && e.nodes[path] == File(content, 0x1A0)
        && Parent(path) in e.nodes && e.nodes[Parent(path)] == Dir(0x1E8)
  {
    UmaskExamples();
    var storeDir := Parent(path);
    var e := AtomicCreate(nodes, path, tmpName, content, 0x17, processUmask, faults);
    if e.outcome.Pass? {
      SuccessfulWrite(nodes, path, tmpName, content, 0x17, processUmask, faults);
      assert storeDir in Prefixes(storeDir);
      assert storeDir != path;
    }
  }

  // ---------------------------------------------------------------------------
  // The file system the store runs on.

  class FileSystem {
    var nodes: map<Path, Node>
    /** The process umask, `File.umask`. */
    var umask: Mode
    /** The directories whose times `File.utime` set, in order. */
    var touched: seq<Path>

    constructor (nodes: map<Path, Node>, umask: Mode)
      ensures this.nodes == nodes && this.umask == umask && touched == []
    {
      this.nodes := nodes;
      this.umask := umask;
      touched := [];
    }

    /** `open(path, CREAT | EXCL | WRONLY, perm)` in directory `dir`. */
    method CreateExclusive(dir: Path, path: Path, perm: Mode) returns (o: Outcome)
      modifies this
      ensures umask == old(umask) && touched == old(touched)
      ensures IsDir(old(nodes), dir) && path !in old(nodes) ==>
        o == Pass && nodes == old(nodes)[path := File([], ApplyUmask(perm, umask))]
      ensures IsDir(old(nodes), dir) && path in old(nodes) ==>
        o == Fail(SystemCallError(EEXIST)) && nodes == old(nodes)
      ensures !IsDir(old(nodes), dir) ==>
        o == Fail(SystemCallError(if Blocked(old(nodes), dir) then ENOTDIR else ENOENT)) && nodes == old(nodes)
    {
      if !IsDir(nodes, dir) {
        o := Fail(SystemCallError(if Blocked(nodes, dir) then ENOTDIR else ENOENT));
      } else if path in nodes {
        o := Fail(SystemCallError(EEXIST));
      } else {
        nodes := nodes[path := File([], ApplyUmask(perm, umask))];
        o := Pass;
      }
    }

    method MakeDirs(dir: Path, mode: Mode)
      modifies this
      ensures nodes == MkdirP(old(nodes), dir, mode)
      ensures umask == old(umask) && touched == old(touched)
    {
      nodes := MkdirP(nodes, dir, mode);
    }

    /** `out << content`; `fails` stands for an `IOError` from the stream. */
    method WriteInto(path: Path, content: Bytes, fails: bool) returns (o: Outcome)
      requires path in nodes && nodes[path].File?
      modifies this
      ensures umask == old(umask) && touched == old(touched)
      ensures fails ==> o == Fail(IOError) && nodes == old(nodes)
      ensures !fails ==> o == Pass && nodes == old(nodes)[path := File(content, old(nodes)[path].mode)]
    {
      if fails {
        return Fail(IOError);
      }
      nodes := nodes[path := File(content, nodes[path].mode)];
      o := Pass;
    }

    method Chmod(path: Path, mode: Mode)
      requires path in nodes && nodes[path].File?
      modifies this
      ensures umask == old(umask) && touched == old(touched)
      ensures nodes == old(nodes)[path := File(old(nodes)[path].content, mode)]
    {
      nodes := nodes[path := File(nodes[path].content, mode)];
    }

    /** `rename(from, to)`; `stale` stands for an `ESTALE` from the server. */
    method Rename(from: Path, to: Path, stale: bool) returns (o: Outcome)
      requires from in nodes
      modifies this
      ensures umask == old(umask) && touched == old(touched)
      ensures stale ==> o == Fail(SystemCallError(ESTALE)) && nodes == old(nodes)
      ensures !stale && IsDir(old(nodes), to) ==> o == Fail(SystemCallError(EISDIR)) && nodes == old(nodes)
      ensures !stale && !IsDir(old(nodes), to) ==>
        o == Pass && nodes == (old(nodes) - {from})[to := old(nodes)[from]]
    {
      if stale {
        return Fail(SystemCallError(ESTALE));
      }
      if IsDir(nodes, to) {
        return Fail(SystemCallError(EISDIR));
      }
      nodes := (nodes - {from})[to := nodes[from]];
      o := Pass;
    }

    /** `File.utime(now, now, dir)`. */
    method Utime(dir: Path)
      modifies this
      ensures nodes == old(nodes) && umask == old(umask) && touched == old(touched) + [dir]
    {
      touched := touched + [dir];
    }
  }

  // ---------------------------------------------------------------------------
  // The store.

  class FilesystemStore {
    const fs: FileSystem
    const dir: Path
    const umask: Mode
    /** The sharding strategy: the path of a key below `dir`. */
    const shard: string -> Path

    /** `new(dir, umask: u) { |key| ... }`: the umask defaults to the process
        umask (an explicit 0 is kept, as Ruby's `||` only replaces nil), and
        the sharding strategy to the identity. */
    constructor (fs: FileSystem, dir: Path, umask: Option<Mode>, shard: Option<string -> Path>)
      ensures this.fs == fs && this.dir == dir
      ensures this.umask == (if umask.Some? then umask.value else fs.umask)
      ensures this.shard == (if shard.Some? then shard.value else NoopShard)
    {
      this.fs := fs;
      this.dir := dir;
      this.umask := if umask.Some? then umask.value else fs.umask;
      var strategy: string -> Path := NoopShard;
      if shard.Some? {
        strategy := shard.value;
      }
      this.shard := strategy;
    }

    /** The entry the operating system resolves the root's name to;
        `Pathname(dir)` keeps the name as given. */
    function Root(): Path
    {
      Canonical(dir)
    }

    /** `available?`: the root is a directory the process may read and write. */
    predicate Available()
      reads fs
    {
      var root := Root();
      root in fs.nodes && fs.nodes[root].Dir?
      && fs.nodes[root].mode & OwnerRead != 0 && fs.nodes[root].mode & OwnerWrite != 0
    }

    /** `store[key]`: validates the key, then makes a handle on `dir + shard(key)`;
        the file system is not touched. */
    method Get(key: Option<string>) returns (r: Result<StoredObject>)
      ensures r.Ok? <==> Allows(key)
      ensures r.Err? ==> r.error == InvalidKey(key)
      ensures r.Ok? ==>
        && r.value.fs == fs && r.value.umask == umask
        && r.value.path == Join(dir, shard(key.value))
    {
      var valid := MustAllow(key);
      if valid.Fail? {
        return Err(valid.error);
      }
      var handle := new StoredObject(fs, Join(dir, shard(key.value)), umask);
      r := Ok(handle);
    }
  }

  /** `noop_sharding_strategy`. */
  function NoopShard(key: string): Path
  {
    key
  }

  /** Availability over the root's kind and permission bits. */
  lemma AvailabilityExamples(store: FilesystemStore)
    ensures var root := store.Root();
      && (root !in store.fs.nodes ==> !store.Available())
      && (root in store.fs.nodes && store.fs.nodes[root].File? ==> !store.Available())
      && (IsDir(store.fs.nodes, root) && store.fs.nodes[root].mode == 0x140 ==> !store.Available())
      && (IsDir(store.fs.nodes, root) && store.fs.nodes[root].mode == 0x0C0 ==> !store.Available())
      && (IsDir(store.fs.nodes, root) && store.fs.nodes[root].mode == 0x1C0 ==> store.Available())
  {
  }

  /** An available store holds a one-segment key's file directly in its
      root, so a write there finds its directory and makes none. */
  lemma AvailableRootHoldsSegment(store: FilesystemStore, seg: Path, umask: Mode)
    requires store.dir != [] && IsSegment(seg) && store.Available()
    ensures Parent(Join(store.dir, seg)) == store.Root()
    ensures IsDir(store.fs.nodes, Parent(Join(store.dir, seg)))
    ensures Prepared(store.fs.nodes, Parent(Join(store.dir, seg)), umask) == store.fs.nodes
  {
    JoinResolvesParent(store.dir, seg);
  }

  /** A handle on one path; it caches nothing. */
  class StoredObject {
    const fs: FileSystem
    const path: Path
    const umask: Mode

    constructor (fs: FileSystem, path: Path, umask: Mode)
      ensures this.fs == fs && this.path == path && this.umask == umask
    {
      this.fs := fs;
      this.path := path;
      this.umask := umask;
    }

    /** `exists?` is `Pathname#exist?`: true for a directory as well. */
    method Exists() returns (b: bool)
      ensures b <==> path in fs.nodes
    {
      b := path in fs.nodes;
    }

    /** `read` without a block: a file's content; nil for a missing path
        (the rescued `ENOENT`); `ENOTDIR` when a file stands where one of its
        directories should be; `EISDIR` for a directory. */
    method Read() returns (r: Result<Option<Bytes>>)
      ensures path !in fs.nodes && !Blocked(fs.nodes, Parent(path)) ==> r == Ok(None)
      ensures path !in fs.nodes && Blocked(fs.nodes, Parent(path)) ==> r == Err(SystemCallError(ENOTDIR))
      ensures path in fs.nodes && fs.nodes[path].File? ==> r == Ok(Some(fs.nodes[path].content))
      ensures IsDir(fs.nodes, path) ==> r == Err(SystemCallError(EISDIR))
    {
      if path !in fs.nodes {
        if Blocked(fs.nodes, Parent(path)) {
          return Err(SystemCallError(ENOTDIR));
        }
        return Ok(None);
      }
      match fs.nodes[path]
      case File(content, _) => r := Ok(Some(content));
      case Dir(_) => r := Err(SystemCallError(EISDIR));
    }

    /** `read` with a block: the successive `read(512)` chunks handed to the
        block, which together are the file, then nil; the same errors as
        `Read`, before any chunk. */
    method ReadEach() returns (chunks: seq<Bytes>, r: Result<Option<Bytes>>)
      ensures path !in fs.nodes && !Blocked(fs.nodes, Parent(path)) ==> chunks == [] && r == Ok(None)
      ensures path !in fs.nodes && Blocked(fs.nodes, Parent(path)) ==>
        chunks == [] && r == Err(SystemCallError(ENOTDIR))
      ensures path in fs.nodes && fs.nodes[path].File? ==>
        && chunks == Chunks(fs.nodes[path].content) && r == Ok(None)
        && Concat(chunks) == fs.nodes[path].content
      ensures IsDir(fs.nodes, path) ==> chunks == [] && r == Err(SystemCallError(EISDIR))
    {
      chunks := [];
      if path !in fs.nodes {
        if Blocked(fs.nodes, Parent(path)) {
          return chunks, Err(SystemCallError(ENOTDIR));
        }
        return chunks, Ok(None);
      }
      if fs.nodes[path].Dir? {
        return chunks, Err(SystemCallError(EISDIR));
      }
      chunks := ReadChunks(fs.nodes[path].content);
      r := Ok(None);
    }

    /** The first part of `atomic_create`: open the temporary file with
        `CREAT | EXCL`; on `ENOENT` make the directory with `mkdir_p` and
        `0777 & ~umask`, then retry. Any other error is raised. */
    method CreateTemp(storeDir: Path, tmpPath: Path) returns (o: Outcome)
      requires storeDir != []
      modifies fs
      ensures fs.umask == old(fs.umask) && fs.touched == old(fs.touched)
      ensures !IsDir(old(fs.nodes), storeDir) && Blocked(old(fs.nodes), storeDir) ==>
        o == Fail(SystemCallError(ENOTDIR)) && fs.nodes == old(fs.nodes)
      ensures IsDir(old(fs.nodes), storeDir) || !Blocked(old(fs.nodes), storeDir) ==>
        var ready := Prepared(old(fs.nodes), storeDir, umask);
        && (tmpPath in ready ==> o == Fail(SystemCallError(EEXIST)) && fs.nodes == ready)
        && (tmpPath !in ready ==>
              o == Pass && fs.nodes == ready[tmpPath := File([], ApplyUmask(FileCreateMode, fs.umask))])
    {
      ghost var ready := Prepared(fs.nodes, storeDir, umask);
      while true
        invariant fs.umask == old(fs.umask) && fs.touched == old(fs.touched)
        invariant fs.nodes == old(fs.nodes) ||
          (!IsDir(old(fs.nodes), storeDir) && !Blocked(old(fs.nodes), storeDir) && fs.nodes == ready)
        invariant !IsDir(old(fs.nodes), storeDir) ==>
          ready == MkdirP(old(fs.nodes), storeDir, ApplyUmask(DirCreateMode, umask))
        decreases if IsDir(fs.nodes, storeDir) then 0 else 1
      {
        o := fs.CreateExclusive(storeDir, tmpPath, FileCreateMode);
        if o != Fail(SystemCallError(ENOENT)) {
          return;
        }
        fs.MakeDirs(storeDir, ApplyUmask(DirCreateMode, umask));
        assert IsDir(fs.nodes, storeDir) by { assert storeDir in Prefixes(storeDir); }
      }
    }

    /** The last part of `atomic_create`: rename the temporary file onto the
        target; on a first `ESTALE` touch the directory and retry once. The
        number of renames that raise `ESTALE` is injected. */
    method RenameIntoPlace(tmpPath: Path, storeDir: Path, staleRenames: nat) returns (o: Outcome)
      requires tmpPath in fs.nodes
      modifies fs
      ensures fs.umask == old(fs.umask)
      ensures fs.touched == old(fs.touched) + (if staleRenames == 0 then [] else [storeDir])
      ensures staleRenames >= 2 ==> o == Fail(SystemCallError(ESTALE)) && fs.nodes == old(fs.nodes)
      ensures staleRenames <= 1 && IsDir(old(fs.nodes), path) ==>
        o == Fail(SystemCallError(EISDIR)) && fs.nodes == old(fs.nodes)
      ensures staleRenames <= 1 && !IsDir(old(fs.nodes), path) ==>
        o == Pass && fs.nodes == (old(fs.nodes) - {tmpPath})[path := old(fs.nodes)[tmpPath]]
    {
      var firstTry := true;
      while true
        invariant fs.nodes == old(fs.nodes) && fs.umask == old(fs.umask)
        invariant fs.touched == old(fs.touched) + (if firstTry then [] else [storeDir])
        invariant !firstTry ==> staleRenames >= 1
        decreases if firstTry then 1 else 0
      {
        o := fs.Rename(tmpPath, path, (if firstTry then 0 else 1) < staleRenames);
        if o.Pass? || o != Fail(SystemCallError(ESTALE)) || !firstTry {
          return;
        }
        firstTry := false;
        fs.Utime(storeDir);
      }
    }

    /** The middle of `atomic_create`: write the content into the temporary
        file, which was created with `0666 & ~File.umask`, and chmod it to
        `0666 & ~umask` when the store's umask differs; then rename it. */
    method FillAndRename(storeDir: Path, tmpPath: Path, content: Bytes, faults: Faults) returns (r: Outcome)
      requires tmpPath in fs.nodes && fs.nodes[tmpPath] == File([], ApplyUmask(FileCreateMode, fs.umask))
      modifies fs
      ensures fs.umask == old(fs.umask)
      ensures faults.writeFails ==>
        r == Fail(IOError) && fs.nodes == old(fs.nodes) && fs.touched == old(fs.touched)
      ensures !faults.writeFails ==>
        var written := old(fs.nodes)[tmpPath := File(content, ApplyUmask(FileCreateMode, umask))];
        var stale := faults.staleRenames;
        && fs.touched == old(fs.touched) + (if stale == 0 then [] else [storeDir])
        && (stale >= 2 ==> r == Fail(SystemCallError(ESTALE)) && fs.nodes == written)
        && (stale <= 1 && IsDir(written, path) ==> r == Fail(SystemCallError(EISDIR)) && fs.nodes == written)
        && (stale <= 1 && !IsDir(written, path) ==>
              r == Pass && fs.nodes == (written - {tmpPath})[path := written[tmpPath]])
    {
      r := fs.WriteInto(tmpPath, content, faults.writeFails);
      if r.Fail? {
        return;
      }
      var mode := ApplyUmask(FileCreateMode, umask);
      if umask != fs.umask {
        fs.Chmod(tmpPath, mode);
      }
      assert fs.nodes == old(fs.nodes)[tmpPath := File(content, mode)];
      r := RenameIntoPlace(tmpPath, storeDir, faults.staleRenames);
    }

    /** `write`: `atomic_create` with the content as the block. The temporary
        name (random in the source) and the injected faults are parameters. */
    method Write(content: Bytes, tmpName: string, faults: Faults) returns (r: Outcome)
      modifies fs
      ensures var e := AtomicCreate(old(fs.nodes), path, tmpName, content, umask, old(fs.umask), faults);
        r == e.outcome && fs.nodes == e.nodes && fs.touched == old(fs.touched) + e.touched
      ensures fs.umask == old(fs.umask)
    {
      var storeDir := Parent(path);
      var tmpPath := Join(storeDir, tmpName);
      r := CreateTemp(storeDir, tmpPath);
      if r.Pass? {
        ghost var ready := Prepared(old(fs.nodes), storeDir, umask);
        assert ready[tmpPath := File(content, ApplyUmask(FileCreateMode, umask))]
            == fs.nodes[tmpPath := File(content, ApplyUmask(FileCreateMode, umask))];
        r := FillAndRename(storeDir, tmpPath, content, faults);
      }
    }

    /** `delete`: `FileUtils.rm`; true once a file was removed, false for a
        missing file (the rescued `ENOENT`), `ENOTDIR` when a file stands
        where one of its directories should be, and `EISDIR` for a directory. */
    method Delete() returns (r: Result<bool>)
      modifies fs
      ensures fs.umask == old(fs.umask) && fs.touched == old(fs.touched)
      ensures path !in old(fs.nodes) && !Blocked(old(fs.nodes), Parent(path)) ==>
        r == Ok(false) && fs.nodes == old(fs.nodes)
      ensures path !in old(fs.nodes) && Blocked(old(fs.nodes), Parent(path)) ==>
        r == Err(SystemCallError(ENOTDIR)) && fs.nodes == old(fs.nodes)
      ensures IsDir(old(fs.nodes), path) ==> r == Err(SystemCallError(EISDIR)) && fs.nodes == old(fs.nodes)
      ensures path in old(fs.nodes) && old(fs.nodes)[path].File? ==>
        r == Ok(true) && fs.nodes == old(fs.nodes) - {path}
    {
      if path !in fs.nodes {
        if Blocked(fs.nodes, Parent(path)) {
          return Err(SystemCallError(ENOTDIR));
        }
        return Ok(false);
      }
      if fs.nodes[path].Dir? {
        return Err(SystemCallError(EISDIR));
      }
      fs.nodes := fs.nodes - {path};
      r := Ok(true);
    }
  }
}
