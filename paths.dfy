/** The parts of `pathlib.PurePosixPath` the downloader uses: `name`,
    `stem` and `suffix`. A path is a string with `/` as separator; empty
    components and `.` components are dropped, as PurePath does. */
module PosixPath {
  import opened Text

  /** Index just after the last `/` of `p` (0 when there is none). */
  function SegmentStart(p: string): (k: nat)
    ensures k <= |p|
    ensures '/' !in p[k..]
    ensures k > 0 ==> p[k - 1] == '/'
  {
    if p == [] then 0
    else if p[|p| - 1] == '/' then |p|
    else SegmentStart(p[..|p| - 1])
  }

  /** A component that PurePath keeps: not empty, not `.`, without a separator. */
  predicate IsComponent(c: string)
  {
    c != "" && c != "." && '/' !in c
  }

  /** `Path(p).name`: the last kept component, or "" when there is none. */
  function Name(p: string): (name: string)
    ensures name == "" || IsComponent(name)
    decreases |p|
  {
    var k := SegmentStart(p);
    var last := p[k..];
    if last == "" || last == "." then
      if k == 0 then "" else Name(p[..k - 1])
    else last
  }

  /** The name of a component joined onto a directory is that component. */
  lemma NameOfJoin(dir: string, c: string)
    requires IsComponent(c)
    ensures Name(dir + "/" + c) == c
    ensures Name(c) == c
  {
    var p := dir + "/" + c;
    SegmentStartOfJoin(dir, c);
    assert p[|dir| + 1..] == c;
    SegmentStartOfComponent(c);
  }

  lemma {:induction false} SegmentStartOfComponent(c: string)
    requires '/' !in c
    ensures SegmentStart(c) == 0
  {
    if c != [] {
      SegmentStartOfComponent(c[..|c| - 1]);
    }
  }

  lemma {:induction false} SegmentStartOfJoin(dir: string, c: string)
    requires '/' !in c
    ensures SegmentStart(dir + "/" + c) == |dir| + 1
    decreases |c|
  {
    var p := dir + "/" + c;
    if c != [] {
      var c' := c[..|c| - 1];
      assert p[..|p| - 1] == dir + "/" + c';
      SegmentStartOfJoin(dir, c');
    }
  }

  /** A trailing separator does not change the name. */
  lemma NameIgnoresTrailingSlash(p: string)
    ensures Name(p + "/") == Name(p)
  {
    var q := p + "/";
    assert q[..|q| - 1] == p;
  }

  /** Nor does a trailing `/.`. */
  lemma NameIgnoresTrailingDot(p: string)
    ensures Name(p + "/.") == Name(p)
  {
    var r := p + "/.";
    assert p + "/" + "." == r;
    SegmentStartOfJoin(p, ".");
    var k := SegmentStart(r);
    assert k == |p| + 1;
    assert r[k..] == ".";
    assert r[..k - 1] == p;
  }

  /** Index of the last `.` of `s`, or -1 (`str.rfind('.')`). */
  function LastDot(s: string): (i: int)
    ensures -1 <= i < |s|
    ensures i >= 0 ==> s[i] == '.'
    ensures forall j :: i < j < |s| ==> s[j] != '.'
  {
    if s == [] then -1
    else if s[|s| - 1] == '.' then |s| - 1
    else LastDot(s[..|s| - 1])
  }

  /** Whether PurePath splits `name` at its last dot. */
  predicate HasSplit(name: string)
  {
    0 < LastDot(name) < |name| - 1
  }

  /** `Path.suffix`: from the last dot on, unless that dot is first or last. */
  function Suffix(name: string): (r: string)
    ensures r == "" || (|r| >= 2 && r[0] == '.' && '.' !in r[1..])
    ensures EndsWith(name, r)
  {
    if HasSplit(name) then name[LastDot(name)..] else ""
  }

  /** `Path.stem`: the name without its suffix; the two put the name back together. */
  function Stem(name: string): (r: string)
    ensures r + Suffix(name) == name
    ensures name != "" ==> r != ""
  {
    if HasSplit(name) then name[..LastDot(name)] else name
  }
}
