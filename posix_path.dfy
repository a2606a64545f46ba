/**
 * The `os.path` functions media_archive.py calls (`join`, `dirname`,
 * `splitext`), with the semantics of CPython's `posixpath`: `/` is the only
 * separator and `.` the extension separator. `basename`, which the program
 * does not call, is here as the inverse that `dirname` is proved against.
 */
module PosixPath {
  import opened Wrappers
  import opened PyStr

  const Sep: char := '/'
  const ExtSep: char := '.'

  /** Every character of `s` is `c` (true of the empty string). */
  predicate AllChar(s: string, c: char) {
    forall i :: 0 <= i < |s| ==> s[i] == c
  }

  /** The index just after the last separator of `p` (`p.rfind('/') + 1`). */
  function NameStart(p: string): (k: nat)
    ensures k <= |p|
    ensures Sep !in p[k..]
    ensures k > 0 ==> p[k - 1] == Sep
    ensures Sep !in p ==> k == 0
  {
    match LastIndexOf(p, Sep)
    case None => 0
    case Some(i) => i + 1
  }

  /** `os.path.basename(p)`: what follows the last separator; not called by the program, it is the inverse of `join`. */
  function Basename(p: string): (r: string)
    ensures Sep !in r
    ensures EndsWith(p, r)
    ensures Sep !in p ==> r == p
  {
    p[NameStart(p)..]
  }

  /** `s.rstrip(c)`: `s` without its trailing run of `c`. */
  function RStrip(s: string, c: char): (r: string)
    ensures r <= s
    ensures r == [] || r[|r| - 1] != c
    ensures AllChar(s[|r|..], c)
  {
    if s == [] || s[|s| - 1] != c then s
    else RStrip(s[..|s| - 1], c)
  }

  /**
   * `os.path.dirname(p)`: everything up to the last separator, with trailing
   * separators stripped unless that part consists of separators only.
   */
  function Dirname(p: string): (r: string)
    ensures Sep !in p ==> r == []
  {
    var head := p[..NameStart(p)];
    if head != [] && !AllChar(head, Sep) then RStrip(head, Sep) else head
  }

  /**
   * `os.path.join(a, b)`: an absolute `b` replaces `a`; otherwise `b` is
   * appended, with a separator unless `a` is empty or already ends in one.
   */
  function Join(a: string, b: string): (r: string)
    ensures EndsWith(r, b)
    ensures !StartsWith(b, [Sep]) ==> StartsWith(r, a)
  {
    if StartsWith(b, [Sep]) then b
    else if a == [] || a[|a| - 1] == Sep then a + b
    else a + [Sep] + b
  }

  /**
   * The whole result of `join`: an absolute `b` alone; otherwise `a`, then
   * `b`, with one separator between them exactly when `a` is non-empty and
   * does not already end in one.
   */
  lemma JoinShape(a: string, b: string)
    ensures StartsWith(b, [Sep]) ==> Join(a, b) == b
    ensures !StartsWith(b, [Sep]) ==> Join(a, b) == a + b || Join(a, b) == a + [Sep] + b
    ensures !StartsWith(b, [Sep]) ==> (|Join(a, b)| == |a| + 1 + |b| <==> a != [] && !EndsWith(a, [Sep]))
  {
  }

  /** A name directly below `/` has `/` as its directory. */
  lemma DirnameAtTop(name: string)
    requires Sep !in name
    ensures Dirname([Sep] + name) == [Sep]
  {
    var p := [Sep] + name;
    assert p[1..] == name;
    assert NameStart(p) == 1;
    assert p[..1] == [Sep];
  }

  /**
   * Joining a directory that does not end in a separator with a plain file
   * name is undone by `dirname` and `basename`.
   */
  lemma JoinSplit(dir: string, name: string)
    requires dir == [] || dir[|dir| - 1] != Sep
    requires name != [] && Sep !in name
    ensures Dirname(Join(dir, name)) == dir
    ensures Basename(Join(dir, name)) == name
  {
    var p := Join(dir, name);
    if dir == [] {
      assert p == name;
    } else {
      assert name[0] != Sep;
      assert p == dir + [Sep] + name;
      assert p[|dir|] == Sep;
      assert forall j :: |dir| < j < |p| ==> p[j] == name[j - |dir| - 1];
      assert NameStart(p) == |dir| + 1;
      var head := p[..|dir| + 1];
      assert head == dir + [Sep];
      assert head[|head| - 2] != Sep;
      assert RStrip(head, Sep) == RStrip(dir, Sep) == dir;
    }
  }

  /** The base name has a non-dot character somewhere before a dot. */
  predicate HasExtension(name: string) {
    exists i, j :: 0 <= i < j < |name| && name[i] != ExtSep && name[j] == ExtSep
  }

  /**
   * `os.path.splitext(p)`: the extension starts at the last dot of the base
   * name, unless only dots precede that dot in the base name.
   */
  function Splitext(p: string): (r: (string, string))
    ensures r.0 + r.1 == p
    ensures r.1 == [] || (r.1[0] == ExtSep && ExtSep !in r.1[1..] && Sep !in r.1)
  {
    match LastIndexOf(p, ExtSep)
    case Some(dot) =>
      if NameStart(p) <= dot && !AllChar(p[NameStart(p)..dot], ExtSep) then
        ExtensionShape(p, dot);
        (p[..dot], p[dot..])
      else
        (p, [])
    case None => (p, [])
  }

  /** A tail that starts at the last dot, after the last separator, is dot-led and separator-free. */
  lemma ExtensionShape(p: string, dot: nat)
    requires NameStart(p) <= dot < |p| && p[dot] == ExtSep
    requires forall j :: dot < j < |p| ==> p[j] != ExtSep
    ensures p[..dot] + p[dot..] == p
    ensures ExtSep !in p[dot..][1..] && Sep !in p[dot..]
  {
    assert p[dot..] == p[NameStart(p)..][dot - NameStart(p)..];
  }

  /** `splitext` finds an extension exactly when the base name has a dot after a non-dot. */
  lemma SplitextExtension(p: string)
    ensures Splitext(p).1 != [] <==> HasExtension(Basename(p))
  {
    if Splitext(p).1 != [] {
      ExtensionFoundHasDot(p);
    } else {
      NoExtensionNoDot(p);
    }
  }

  /** A non-empty extension witnesses a non-dot before a dot in the base name. */
  lemma ExtensionFoundHasDot(p: string)
    requires Splitext(p).1 != []
    ensures HasExtension(Basename(p))
  {
    var start, name := NameStart(p), Basename(p);
    var dot := LastIndexOf(p, ExtSep).value;
    assert start <= dot && !AllChar(p[start..dot], ExtSep);
    var i :| 0 <= i < dot - start && p[start..dot][i] != ExtSep;
    assert name[i] != ExtSep && name[dot - start] == ExtSep;
  }

  /** With no extension found, every dot of the base name has only dots before it. */
  lemma NoExtensionNoDot(p: string)
    requires Splitext(p).1 == []
    ensures !HasExtension(Basename(p))
  {
    var start, name := NameStart(p), Basename(p);
    forall i, j | 0 <= i < j < |name| && name[j] == ExtSep
      ensures name[i] == ExtSep
    {
      assert name[j] == p[start + j] && name[i] == p[start + i];
      var dot := LastIndexOf(p, ExtSep).value;
      assert start + j <= dot;
      assert p[start..dot][i] == p[start + i];
    }
  }

  /** `splitext` cuts at a given dot when no dot follows it and a non-dot of the base name precedes it. */
  lemma SplitextAt(p: string, i: nat, dot: nat)
    requires NameStart(p) <= i < dot < |p| && p[i] != ExtSep && p[dot] == ExtSep
    requires forall j :: dot < j < |p| ==> p[j] != ExtSep
    ensures Splitext(p) == (p[..dot], p[dot..])
  {
    var d := LastIndexOf(p, ExtSep).value;
    assert d == dot;
    assert p[NameStart(p)..dot][i - NameStart(p)] == p[i];
  }
}
