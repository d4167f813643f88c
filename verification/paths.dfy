/** The two POSIX path helpers the loader uses to turn an image path into a
    label: `os.path.basename` and the root half of `os.path.splitext`.
    The functions carry no postconditions of their own, so that callers do
    not pay for them; their properties are the lemmas below. */
module Paths {
  import opened Wrappers

  /** Directory separator of POSIX paths. */
  const Sep: char := '/'
  /** Extension separator. */
  const ExtSep: char := '.'

  predicate NoSep(s: string) {
    forall i :: 0 <= i < |s| ==> s[i] != Sep
  }

  predicate NoExtSep(s: string) {
    forall i :: 0 <= i < |s| ==> s[i] != ExtSep
  }

  predicate AllDots(s: string) {
    forall i :: 0 <= i < |s| ==> s[i] == ExtSep
  }

  /** Index just past the last separator of `p`, or 0 when `p` has none
      (one more than `str.rfind`). */
  function LastSepEnd(p: string): nat
    decreases |p|
  {
    if |p| == 0 then 0
    else if p[|p| - 1] == Sep then |p|
    else LastSepEnd(p[..|p| - 1])
  }

  /** `os.path.basename`: everything after the last separator. */
  function Basename(p: string): string {
    var k := LastSepEnd(p);
    // `k <= |p|` always holds (LastSepEndSpec); the guard only spares the
    // function a postcondition of its own.
    if k <= |p| then p[k..] else p
  }

  /** Position of the last extension separator of `s`, if any (`str.rfind`). */
  function LastDot(s: string): Option<nat>
    decreases |s|
  {
    if |s| == 0 then None
    else if s[|s| - 1] == ExtSep then Some(|s| - 1)
    else LastDot(s[..|s| - 1])
  }

  /** Root part of `os.path.splitext` on a name without separators: the last
      extension is cut off, unless every character before the last dot is
      itself a dot (a hidden file such as ".bashrc" has no extension). */
  function SplitExtRoot(s: string): string {
    match LastDot(s)
    case None => s
    // `d < |s|` always holds (LastDotSpec); the bound check only spares the
    // function a postcondition of its own.
    case Some(d) => if d <= |s| && !AllDots(s[..d]) then s[..d] else s
  }

  /** The label a reference image gets: its file name with the directory and
      the last extension removed. */
  function Stem(path: string): string {
    SplitExtRoot(Basename(path))
  }

  /** `LastSepEnd` finds the last separator: the one before the returned
      index, with none after it. */
  lemma {:induction false} LastSepEndSpec(p: string)
    ensures LastSepEnd(p) <= |p|
    ensures LastSepEnd(p) > 0 ==> p[LastSepEnd(p) - 1] == Sep
    ensures NoSep(p[LastSepEnd(p)..])
    decreases |p|
  {
    if |p| > 0 && p[|p| - 1] != Sep {
      var q := p[..|p| - 1];
      LastSepEndSpec(q);
      var k := LastSepEnd(q);
      assert p[k..] == q[k..] + [p[|p| - 1]];
    }
  }

  /** `LastDot` finds the last dot: the character at the returned index is
      one and none follows it; `None` means there is no dot at all. */
  lemma {:induction false} LastDotSpec(s: string)
    ensures LastDot(s).Some? ==>
              LastDot(s).value < |s| && s[LastDot(s).value] == ExtSep
              && NoExtSep(s[LastDot(s).value + 1..])
    ensures LastDot(s).None? ==> NoExtSep(s)
    decreases |s|
  {
    if |s| > 0 && s[|s| - 1] != ExtSep {
      var q := s[..|s| - 1];
      LastDotSpec(q);
      match LastDot(q)
      case None =>
        assert s == q + [s[|s| - 1]];
      case Some(d) =>
        assert s[d + 1..] == q[d + 1..] + [s[|s| - 1]];
    }
  }

  /** The base name is the part of the path after its last separator. */
  lemma BasenameSpec(p: string)
    ensures NoSep(Basename(p))
    ensures p == p[..|p| - |Basename(p)|] + Basename(p)
    ensures |Basename(p)| < |p| ==> p[|p| - |Basename(p)| - 1] == Sep
  {
    LastSepEndSpec(p);
    var k := LastSepEnd(p);
    assert p == p[..k] + p[k..];
  }

  /** A label never holds a directory separator: it is a prefix of the
      path's base name. It is the base name cut just before its last dot
      when some non-dot character precedes that dot, and the whole base
      name otherwise (no dot, or only dots before the last one). */
  lemma StemSpec(path: string)
    ensures Stem(path) <= Basename(path)
    ensures NoSep(Stem(path))
    ensures LastDot(Basename(path)).Some? ==> LastDot(Basename(path)).value < |Basename(path)|
    ensures var b := Basename(path);
            var d := LastDot(b);
            && (d.Some? && !AllDots(b[..d.value]) ==> Stem(path) == b[..d.value])
            && (d.None? || AllDots(b[..d.value]) ==> Stem(path) == b)
  {
    BasenameSpec(path);
    var b := Basename(path);
    var s := Stem(path);
    LastDotSpec(b);
    assert forall i :: 0 <= i < |s| ==> s[i] == b[i];
  }

  /** The base name of `dir/file` is `file` whenever `file` has no separator. */
  lemma BasenameAfterSep(dir: string, file: string)
    requires NoSep(file)
    ensures Basename(dir + [Sep] + file) == file
  {
    var p := dir + [Sep] + file;
    LastSepEndSpec(p);
    var k := LastSepEnd(p);
    assert p[|dir|] == Sep;
    if k < |dir| + 1 {
      assert false;
    }
    if k > |dir| + 1 {
      assert false;
    }
    assert p[k..] == file;
  }

  /** The last dot of `name.ext` is the one before `ext` when `ext` has none. */
  lemma LastDotBeforeExt(name: string, ext: string)
    requires NoExtSep(ext)
    ensures LastDot(name + [ExtSep] + ext) == Some(|name|)
  {
    var file := name + [ExtSep] + ext;
    LastDotSpec(file);
    var d := LastDot(file);
    assert file[|name|] == ExtSep;
    if d.None? {
      assert false;
    } else if d.value < |name| {
      assert false;
    } else if d.value > |name| {
      assert false;
    }
  }

  /** A file `name.ext` inside any directory is labelled `name`, whatever
      dots `name` itself contains, as long as it does not start with one. */
  lemma StemOfImageFile(dir: string, name: string, ext: string)
    requires |name| > 0 && name[0] != ExtSep && NoSep(name)
    requires NoSep(ext) && NoExtSep(ext)
    ensures Stem(dir + [Sep] + name + [ExtSep] + ext) == name
  {
    var file := name + [ExtSep] + ext;
    assert dir + [Sep] + name + [ExtSep] + ext == dir + [Sep] + file;
    assert NoSep(file) by {
      forall i | 0 <= i < |file| ensures file[i] != Sep {
        if i > |name| { assert file[i] == ext[i - |name| - 1]; }
      }
    }
    BasenameAfterSep(dir, file);
    LastDotBeforeExt(name, ext);
    assert file[..|name|] == name;
    assert !AllDots(name) by { assert name[0] != ExtSep; }
  }
}
