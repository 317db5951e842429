/** The path/filepath behaviour (Unix flavour) that the upload handler and
    the reclamation sweep rely on, the sweep's path normalisation, and the
    local path and public URL an upload writes. */
module Paths {

  const UploadDir: string := "uploads"
  const PublicPrefix: string := "http://localhost:8080/"

  predicate HasPrefix(s: string, prefix: string) {
    |prefix| <= |s| && s[..|prefix|] == prefix
  }

  predicate NoSlash(s: string) {
    forall i :: 0 <= i < |s| ==> s[i] != '/'
  }

  /** filepath.IsAbs on Unix. */
  predicate IsAbs(p: string) {
    |p| > 0 && p[0] == '/'
  }

  /** Index of the first '/', or |p| when there is none. */
  function FirstSlash(p: string): (i: nat)
    ensures i <= |p|
    ensures i < |p| ==> p[i] == '/'
    ensures NoSlash(p[..i])
    decreases |p|
  {
    if p == [] || p[0] == '/' then 0
    else
      var j := FirstSlash(p[1..]);
      assert p[..j + 1] == [p[0]] + p[1..][..j];
      j + 1
  }

  /** The pieces of p between slashes, empty pieces included. */
  function Split(p: string): (segs: seq<string>)
    ensures |segs| > 0
    decreases |p|
  {
    var i := FirstSlash(p);
    if i == |p| then [p] else [p[..i]] + Split(p[i + 1..])
  }

  /** The pieces joined back with one '/' between neighbours. */
  function JoinSegments(segs: seq<string>): string
    decreases |segs|
  {
    if segs == [] then ""
    else if |segs| == 1 then segs[0]
    else segs[0] + "/" + JoinSegments(segs[1..])
  }

  /** One step of lexical cleaning of a relative path: empty and "."
      pieces vanish, ".." cancels the piece before it when there is one. */
  function Push(stack: seq<string>, seg: string): seq<string> {
    if seg == "" || seg == "." then stack
    else if seg == ".." then
      (if |stack| > 0 && stack[|stack| - 1] != ".." then stack[..|stack| - 1] else stack + [".."])
    else stack + [seg]
  }

  function PushAll(stack: seq<string>, segs: seq<string>): seq<string>
    decreases |segs|
  {
    if segs == [] then stack else PushAll(Push(stack, segs[0]), segs[1..])
  }

  /** filepath.Clean for a path that does not start with '/'. */
  function Clean(p: string): string
    requires !IsAbs(p)
  {
    var segs := PushAll([], Split(p));
    if segs == [] then "." else JoinSegments(segs)
  }

  /** filepath.Join(dir, elem) for a non-empty relative dir (an empty
      elem gives Clean(dir), as filepath.Join does by skipping it). */
  function Join(dir: string, elem: string): string
    requires dir != "" && !IsAbs(dir)
  {
    Clean(dir + "/" + elem)
  }

  function StripTrailingSlashes(p: string): (q: string)
    ensures |q| <= |p| && q == p[..|q|]
    ensures q == [] || q[|q| - 1] != '/'
    decreases |p|
  {
    if p != [] && p[|p| - 1] == '/' then StripTrailingSlashes(p[..|p| - 1]) else p
  }

  /** What follows the last '/' of p. */
  function LastElement(p: string): (e: string)
    ensures NoSlash(e)
    ensures |e| <= |p| && e == p[|p| - |e|..]
    ensures p != [] && p[|p| - 1] != '/' ==> e != ""
    decreases |p|
  {
    var i := FirstSlash(p);
    if i == |p| then (assert p[..i] == p; p) else LastElement(p[i + 1..])
  }

  /** filepath.Base on Unix. */
  function Base(p: string): (b: string)
    ensures b != ""
  {
    if p == "" then "."
    else
      var q := StripTrailingSlashes(p);
      if q == "" then "/" else LastElement(q)
  }

  /** filepath.Ext: the suffix of the last path element from its last '.',
      or "" when that element has no '.'. */
  function Ext(p: string): (e: string)
    ensures e == "" || (e[0] == '.' && |e| <= |p| && e == p[|p| - |e|..])
    ensures forall i :: 0 < i < |e| ==> e[i] != '.' && e[i] != '/'
    decreases |p|
  {
    if p == [] || p[|p| - 1] == '/' then ""
    else if p[|p| - 1] == '.' then "."
    else
      var e := Ext(p[..|p| - 1]);
      if e == "" then "" else e + [p[|p| - 1]]
  }

  /** The local path the sweep deletes for a stored local_path value
      (job/file_cleanup.go): URLs become "uploads/<last element>", other
      relative paths are joined under "uploads", absolute and empty paths
      are used as they are. */
  function Normalize(localPath: string): string {
    if !IsAbs(localPath) && localPath != "" then
      if HasPrefix(localPath, "http://") || HasPrefix(localPath, "https://") then
        Join(UploadDir, Base(localPath))
      else
        Join(UploadDir, localPath)
    else
      localPath
  }

  /** Where saveFileLocally writes the bytes of a stored name. */
  function LocalFilePath(name: string): string
  {
    Join(UploadDir, name)
  }

  /** The public URL saveFileLocally returns for a stored name. */
  function PublicUrl(name: string): string {
    PublicPrefix + UploadDir + "/" + name
  }

  /** The public URL written out. */
  lemma PublicUrlText(name: string)
    ensures PublicUrl(name) == "http://localhost:8080/uploads/" + name
  {
    assert PublicPrefix + UploadDir + "/" == "http://localhost:8080/uploads/";
  }

  /** A single path element that cleaning leaves alone. */
  predicate IsSegment(s: string) {
    s != "" && s != "." && s != ".." && NoSlash(s)
  }

  /** A relative path every piece of which is a plain element. */
  predicate IsCleanRelative(p: string) {
    forall k :: 0 <= k < |Split(p)| ==> IsSegment(Split(p)[k])
  }

  // ---------------------------------------------------------------------
  // Lemmas about the filepath functions

  lemma SplitNoSlash(s: string)
    requires NoSlash(s)
    ensures Split(s) == [s]
  {
    var i := FirstSlash(s);
  }

  lemma SplitAfterElement(a: string, b: string)
    requires NoSlash(a)
    ensures Split(a + "/" + b) == [a] + Split(b)
  {
    var p := a + "/" + b;
    var i := FirstSlash(p);
    assert p[|a|] == '/';
    assert forall j :: 0 <= j < |a| ==> p[j] == a[j];
    assert i == |a|;
    assert p[..i] == a;
    assert p[i + 1..] == b;
  }

  lemma {:induction false} JoinSplit(p: string)
    ensures JoinSegments(Split(p)) == p
    decreases |p|
  {
    var i := FirstSlash(p);
    if i == |p| {
      assert p[..i] == p;
    } else {
      JoinSplit(p[i + 1..]);
      assert p == p[..i] + "/" + p[i + 1..];
    }
  }

  lemma {:induction false} PushAllSegments(stack: seq<string>, segs: seq<string>)
    requires forall k :: 0 <= k < |segs| ==> IsSegment(segs[k])
    ensures PushAll(stack, segs) == stack + segs
    decreases |segs|
  {
    if segs != [] {
      PushAllSegments(stack + [segs[0]], segs[1..]);
      assert stack + [segs[0]] + segs[1..] == stack + segs;
    }
  }

  /** Cleaning "dir/p" leaves it alone when both are plain. */
  lemma CleanUnder(dir: string, p: string)
    requires IsSegment(dir) && p != "" && IsCleanRelative(p)
    ensures Join(dir, p) == dir + "/" + p
  {
    var whole := dir + "/" + p;
    SplitAfterElement(dir, p);
    var segs := Split(whole);
    assert forall k :: 0 <= k < |segs| ==> IsSegment(segs[k]) by {
      forall k | 0 <= k < |segs| ensures IsSegment(segs[k]) {
        if k > 0 { assert segs[k] == Split(p)[k - 1]; }
      }
    }
    PushAllSegments([], segs);
    assert PushAll([], segs) == segs;
    JoinSplit(whole);
    assert Clean(whole) == JoinSegments(segs);
  }

  lemma SegmentIsCleanRelative(s: string)
    requires IsSegment(s)
    ensures IsCleanRelative(s)
  {
    SplitNoSlash(s);
  }

  lemma {:induction false} LastElementAfterSlash(x: string, n: string)
    requires NoSlash(n)
    ensures LastElement(x + "/" + n) == n
    decreases |x|
  {
    var p := x + "/" + n;
    var i := FirstSlash(p);
    if i < |x| {
      assert p[i] == x[i];
      var rest := p[i + 1..];
      assert rest == x[i + 1..] + "/" + n;
      LastElementAfterSlash(x[i + 1..], n);
      assert LastElement(p) == LastElement(rest);
    } else {
      assert NoSlash(x) by {
        forall j | 0 <= j < |x| ensures x[j] != '/' {
          assert p[..i][j] == x[j];
        }
      }
      assert p[|x|] == '/';
      assert i == |x|;
      assert p[i + 1..] == n;
      assert FirstSlash(n) == |n|;
      assert LastElement(p) == LastElement(n);
    }
  }

  /** The last element of any URL ending in "/n" is n. */
  lemma BaseOfPath(x: string, n: string)
    requires n != "" && NoSlash(n)
    ensures Base(x + "/" + n) == n
  {
    var p := x + "/" + n;
    assert StripTrailingSlashes(p) == p by {
      assert p[|p| - 1] == n[|n| - 1];
    }
    LastElementAfterSlash(x, n);
  }

  /** Ext of a name with no '.' and no '/' is empty. */
  lemma {:induction false} ExtOfPlain(x: string)
    requires forall i :: 0 <= i < |x| ==> x[i] != '.'
    ensures Ext(x) == ""
    decreases |x|
  {
    if x != [] && x[|x| - 1] != '/' {
      ExtOfPlain(x[..|x| - 1]);
    }
  }

  /** Appending an extension (a '.' followed by no '.' and no '/') makes it
      the extension of the whole name. */
  lemma {:induction false} ExtOfSuffix(x: string, e: string)
    requires |e| > 0 && e[0] == '.'
    requires forall i :: 0 < i < |e| ==> e[i] != '.' && e[i] != '/'
    ensures Ext(x + e) == e
    decreases |e|
  {
    var p := x + e;
    var last := e[|e| - 1];
    assert p[|p| - 1] == last;
    if |e| > 1 {
      var init := e[..|e| - 1];
      assert p[..|p| - 1] == x + init;
      ExtOfSuffix(x, init);
      assert last != '.' && last != '/';
      assert Ext(p) == init + [last];
      assert e == init + [last];
    }
  }

  // ---------------------------------------------------------------------
  // The normalisation rules of the sweep and their round trip with the upload

  /** A relative URL value becomes "uploads/<last element>", cleaned. */
  lemma NormalizeUrl(p: string)
    requires !IsAbs(p) && p != ""
    requires HasPrefix(p, "http://") || HasPrefix(p, "https://")
    ensures Normalize(p) == Join(UploadDir, Base(p))
    ensures IsSegment(Base(p)) ==> Normalize(p) == UploadDir + "/" + Base(p)
  {
    var b := Base(p);
    if IsSegment(b) {
      SegmentIsCleanRelative(b);
      UploadDirIsSegment();
      CleanUnder(UploadDir, b);
    }
  }

  lemma UploadDirIsSegment()
    ensures IsSegment(UploadDir)
  {
    assert NoSlash(UploadDir) by {
      forall i | 0 <= i < |UploadDir| ensures UploadDir[i] != '/' {
        assert UploadDir[i] in "uploads";
      }
    }
  }

  /** Any other non-empty relative value is joined under "uploads"; a
      value that is already a clean relative path gains exactly the prefix. */
  lemma NormalizeRelative(p: string)
    requires !IsAbs(p) && p != ""
    requires !HasPrefix(p, "http://") && !HasPrefix(p, "https://")
    ensures Normalize(p) == Join(UploadDir, p)
    ensures IsCleanRelative(p) ==> Normalize(p) == UploadDir + "/" + p
  {
    if IsCleanRelative(p) {
      UploadDirIsSegment();
      CleanUnder(UploadDir, p);
    }
  }

  /** Absolute and empty values are not rewritten. */
  lemma NormalizeAbsoluteOrEmpty(p: string)
    requires IsAbs(p) || p == ""
    ensures Normalize(p) == p
  {
  }

  /** saveFileLocally writes "uploads/<name>" for a plain stored name. */
  lemma LocalFilePathOfSegment(name: string)
    requires IsSegment(name)
    ensures LocalFilePath(name) == UploadDir + "/" + name
  {
    SegmentIsCleanRelative(name);
    UploadDirIsSegment();
    CleanUnder(UploadDir, name);
  }

  /** Round trip: normalising the public URL of a stored name gives back
      exactly the local path the upload wrote. */
  lemma NormalizePublicUrl(name: string)
    requires IsSegment(name)
    ensures Normalize(PublicUrl(name)) == LocalFilePath(name)
    ensures LocalFilePath(name) == UploadDir + "/" + name
  {
    var url := PublicUrl(name);
    assert url == (PublicPrefix + UploadDir) + "/" + name;
    assert HasPrefix(url, "http://") by {
      assert url[..7] == "http://";
    }
    BaseOfPath(PublicPrefix + UploadDir, name);
    NormalizeUrl(url);
    LocalFilePathOfSegment(name);
  }
}
