/** The two path helpers of fs/path.ts: `basename` (pure, a regular-expression
    replace and a suffix strip) and `join` (a loop accumulating the result). */
module PathUtil {

  predicate EndsWith(s: string, suffix: string) {
    |suffix| <= |s| && s[|s| - |suffix|..] == suffix
  }

  predicate StartsWith(s: string, prefix: string) {
    |prefix| <= |s| && s[..|prefix|] == prefix
  }

  // ---------------------------------------------------------------------------
  // basename

  /** JavaScript's `.` does not match these, so `^.*\/` cannot reach past them. */
  predicate IsLineTerminator(c: char) {
    c == '\n' || c == '\r' || c == '\U{2028}' || c == '\U{2029}'
  }

  /** Index of the first line terminator in s, or |s| when there is none. */
  function FirstLineBreak(s: string): (k: nat)
    ensures k <= |s|
    ensures forall i :: 0 <= i < k ==> !IsLineTerminator(s[i])
    ensures k < |s| ==> IsLineTerminator(s[k])
    decreases |s|
  {
    if s == [] then 0
    else if IsLineTerminator(s[0]) then 0
    else 1 + FirstLineBreak(s[1..])
  }

  /** Index of the last '/' among the first n characters of s, or -1. */
  function LastSlashBefore(s: string, n: nat): (k: int)
    requires n <= |s|
    ensures -1 <= k < n
    ensures k >= 0 ==> s[k] == '/'
    ensures forall i :: k < i < n ==> s[i] != '/'
    decreases n
  {
    if n == 0 then -1
    else if s[n - 1] == '/' then n - 1
    else LastSlashBefore(s, n - 1)
  }

  /** `path.replace(/^.*\//ig, '')`: the greedy match runs from the start of
      the string to the last '/' that no line terminator precedes; when there
      is no such '/', nothing is replaced. */
  function StripDirectory(p: string): string
  {
    var k := LastSlashBefore(p, FirstLineBreak(p));
    p[k + 1..]
  }

  /** `basename(path, ext)`; an absent `ext` is the empty string (both are
      falsy, so both skip the suffix strip). */
  function Basename(p: string, ext: string): (r: string)
    ensures r <= StripDirectory(p) && |r| <= |p|
  {
    var name := StripDirectory(p);
    if ext != "" && EndsWith(name, ext) then name[..|name| - |ext|] else name
  }

  /** The basename of a path that does not end with '/' is not empty and
      does not start with '/'. */
  lemma BasenameShape(c: string)
    requires c != "" && !EndsWith(c, "/")
    ensures Basename(c, "") != "" && Basename(c, "")[0] != '/'
  {
    var k := LastSlashBefore(c, FirstLineBreak(c));
    assert c[|c| - 1] != '/' by {
      assert c[|c| - 1..] == [c[|c| - 1]];
    }
    assert k + 1 < |c|;
    assert StripDirectory(c) == c[k + 1..];
  }

  /** A path free of line terminators has its first break at its end. */
  lemma {:induction false} NoLineBreak(s: string)
    requires forall i :: 0 <= i < |s| ==> !IsLineTerminator(s[i])
    ensures FirstLineBreak(s) == |s|
    decreases |s|
  {
    if s != [] {
      assert !IsLineTerminator(s[0]);
      NoLineBreak(s[1..]);
    }
  }

  /** On a single-line path the directory part ends at the last '/'. */
  lemma StripSingleLine(p: string)
    requires forall i :: 0 <= i < |p| ==> !IsLineTerminator(p[i])
    ensures StripDirectory(p) == p[LastSlashBefore(p, |p|) + 1..]
  {
    NoLineBreak(p);
  }

  /** On a single-line path, basename without `ext` is the text after the
      last '/': a suffix of the path, free of '/', preceded by a '/' unless it
      is the whole path. */
  lemma BasenameIsLastSegment(p: string)
    requires forall i :: 0 <= i < |p| ==> !IsLineTerminator(p[i])
    ensures var name := Basename(p, "");
      && EndsWith(p, name)
      && (forall i :: 0 <= i < |name| ==> name[i] != '/')
      && (|name| < |p| ==> p[|p| - |name| - 1] == '/')
  {
    StripSingleLine(p);
    var k := LastSlashBefore(p, |p|);
    var name := p[k + 1..];
    assert Basename(p, "") == name;
    assert |name| == |p| - (k + 1);
    forall i | 0 <= i < |name| ensures name[i] != '/' {
      assert name[i] == p[k + 1 + i];
    }
  }

  /** With a non-empty `ext`, one trailing copy of it is removed when present
      and the name is left alone otherwise. */
  lemma BasenameStripsExtension(p: string, ext: string)
    requires ext != ""
    ensures EndsWith(StripDirectory(p), ext) ==>
              Basename(p, ext) + ext == StripDirectory(p)
    ensures !EndsWith(StripDirectory(p), ext) ==> Basename(p, ext) == StripDirectory(p)
  {
  }

  /** The two cases of test/path.test.ts, on the path they use. */
  lemma BasenameExamples(p: string)
    requires p == "/a/b/c.txt"
    ensures Basename(p, "") == "c.txt"
    ensures Basename(p, ".txt") == "c"
  {
    NoLineBreak(p);
    assert LastSlashBefore(p, |p|) == 4 by {
      assert p[4] == '/' && p[5] != '/' && p[6] != '/' && p[7] != '/' && p[8] != '/' && p[9] != '/';
    }
    assert StripDirectory(p) == "c.txt" by {
      assert p[5..] == "c.txt";
    }
    assert Basename(p, ".txt") == "c" by {
      var name := "c.txt";
      assert name[1..] == ".txt";
      assert name[..1] == "c";
    }
  }

  // ---------------------------------------------------------------------------
  // join

  /** `s.replace(/^\/+/ig, '')`: drop every leading '/'. */
  function TrimLeadingSlashes(s: string): (t: string)
    ensures EndsWith(s, t)
    ensures t == [] || t[0] != '/'
    ensures forall i :: 0 <= i < |s| - |t| ==> s[i] == '/'
    decreases |s|
  {
    if s != [] && s[0] == '/' then TrimLeadingSlashes(s[1..]) else s
  }

  /** One iteration of the loop in `join`; `acc == ""` stands for the
      still-undefined accumulator (both are falsy there). */
  function JoinStep(acc: string, segment: string): string
  {
    if segment == "" then acc
    else if acc == "" then segment
    else (if EndsWith(acc, "/") then acc else acc + "/") + TrimLeadingSlashes(segment)
  }

  /** The accumulator after the loop has seen every segment of `paths`. */
  function JoinAcc(paths: seq<string>): string
    decreases |paths|
  {
    if paths == [] then "" else JoinStep(JoinAcc(paths[..|paths| - 1]), paths[|paths| - 1])
  }

  /** The result of `join(paths)`: the accumulator, or "/" when it is unset. */
  function JoinOf(paths: seq<string>): (r: string)
    ensures r != ""
  {
    var acc := JoinAcc(paths);
    if acc == "" then "/" else acc
  }

  /** `join(paths)`, the loop of fs/path.ts:13-26. */
  method Join(paths: seq<string>) returns (r: string)
    ensures r == JoinOf(paths)
    ensures r != ""
  {
    var nPath := "";
    for i := 0 to |paths|
      invariant nPath == JoinAcc(paths[..i])
    {
      assert paths[..i + 1][..i] == paths[..i];
      if |paths[i]| == 0 {
        continue;
      }
      if nPath == "" {
        nPath := paths[i];
        continue;
      }
      if !EndsWith(nPath, "/") {
        nPath := nPath + "/";
      }
      var sep := TrimLeadingSlashes(paths[i]);
      nPath := nPath + sep;
    }
    assert paths[..|paths|] == paths;
    r := if nPath == "" then "/" else nPath;
  }

  function NonEmptySegments(paths: seq<string>): seq<string>
    decreases |paths|
  {
    if paths == [] then []
    else NonEmptySegments(paths[..|paths| - 1]) + (if paths[|paths| - 1] == "" then [] else [paths[|paths| - 1]])
  }

  /** Empty segments are skipped: joining gives the same text with them removed. */
  lemma {:induction false} JoinSkipsEmpty(paths: seq<string>)
    ensures JoinAcc(paths) == JoinAcc(NonEmptySegments(paths))
    ensures JoinOf(paths) == JoinOf(NonEmptySegments(paths))
    decreases |paths|
  {
    if paths != [] {
      var init := paths[..|paths| - 1];
      var last := paths[|paths| - 1];
      JoinSkipsEmpty(init);
      if last != "" {
        var ne := NonEmptySegments(paths);
        assert ne == NonEmptySegments(init) + [last];
        assert ne[..|ne| - 1] == NonEmptySegments(init);
        assert JoinAcc(ne) == JoinStep(JoinAcc(NonEmptySegments(init)), last);
      } else {
        assert NonEmptySegments(paths) == NonEmptySegments(init) + [];
        assert NonEmptySegments(init) + [] == NonEmptySegments(init);
      }
    }
  }

  /** When every segment is empty (or there are none), the result is "/". */
  lemma {:induction false} JoinOfEmptySegments(paths: seq<string>)
    requires forall i :: 0 <= i < |paths| ==> paths[i] == ""
    ensures JoinAcc(paths) == ""
    ensures JoinOf(paths) == "/"
    decreases |paths|
  {
    if paths != [] {
      JoinOfEmptySegments(paths[..|paths| - 1]);
    }
  }

  /** The first non-empty segment is kept verbatim at the start of the result. */
  lemma {:induction false} JoinKeepsFirstSegment(paths: seq<string>, k: nat)
    requires k < |paths| && paths[k] != ""
    requires forall i :: 0 <= i < k ==> paths[i] == ""
    ensures StartsWith(JoinAcc(paths), paths[k])
    decreases |paths|
  {
    if |paths| - 1 == k {
      JoinOfEmptySegments(paths[..k]);
    } else {
      var init := paths[..|paths| - 1];
      JoinKeepsFirstSegment(init, k);
      var acc := JoinAcc(init);
      assert acc != "";
    }
  }

  /** A later non-empty segment is appended, stripped of its leading '/'
      characters, after exactly one joining '/': the accumulated text is made
      to end with '/' and the appended text does not start with one. */
  lemma JoinAppendsAfterSlash(paths: seq<string>, segment: string)
    requires JoinAcc(paths) != "" && segment != ""
    ensures var acc := JoinAcc(paths);
      && JoinAcc(paths + [segment]) == (if EndsWith(acc, "/") then acc else acc + "/") + TrimLeadingSlashes(segment)
      && (TrimLeadingSlashes(segment) == "" || TrimLeadingSlashes(segment)[0] != '/')
  {
    assert (paths + [segment])[..|paths|] == paths;
  }

  /** The case of test/path.test.ts: `join(["/a/b","c"]) == "/a/b/c"`. */
  lemma JoinExample()
    ensures JoinOf(["/a/b", "c"]) == "/a/b/c"
  {
    var ps := ["/a/b", "c"];
    assert ps[..1] == ["/a/b"];
    assert ps[..1][..0] == [];
    assert JoinAcc(ps[..1]) == "/a/b";
    assert !EndsWith("/a/b", "/");
    assert TrimLeadingSlashes("c") == "c";
  }

}
