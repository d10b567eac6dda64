/**
 * File paths as the command line hands them to `rojo sync`: operating-system
 * strings split by `/`, and the file-name and extension rules of Rust's
 * `std::path::Path`, which `FileKind::from_path` relies on.
 */
module Paths {
  import opened Wrappers

  /** A byte outside ASCII: one that, left over from an invalid UTF-8
      sequence, stands in an operating-system string on its own. */
  type RawByte = b: bv8 | b >= 0x80 witness 0x80

  /** One unit of an operating-system string: a character, or a raw byte.
      Strings are taken in canonical form: every byte run that decodes as
      UTF-8 is written as its characters, so `Byte` units are only what is
      left of invalid sequences. The type does not enforce this. */
  datatype OsUnit = Char(c: char) | Byte(b: RawByte)

  type OsStr = seq<OsUnit>

  const Separator: OsUnit := Char('/')
  const Dot: OsUnit := Char('.')

  /** The operating-system string that spells `s`. */
  function OsString(s: string): OsStr
  {
    seq(|s|, i requires 0 <= i < |s| => Char(s[i]))
  }

  /** The units after the last separator: the longest suffix free of separators. */
  function LastComponent(p: OsStr): (c: OsStr)
    ensures Separator !in c
  {
    if p == [] || p[|p| - 1] == Separator then []
    else LastComponent(p[..|p| - 1]) + [p[|p| - 1]]
  }

  /** `Path::file_name`: the last normal component. Trailing separators and
      `.` components are skipped; a path ending in `..`, and a path with no
      normal component at all, have no file name. */
  function FileName(p: OsStr): (name: Option<OsStr>)
    ensures name.Some? ==> name.value != [] && Separator !in name.value
    ensures name.Some? ==> name.value != [Dot] && name.value != [Dot, Dot]
    decreases |p|
  {
    if p == [] then None
    else if p[|p| - 1] == Separator then FileName(p[..|p| - 1])
    else
      var last := LastComponent(p);
      if last == [Dot] then FileName(p[..|p| - 1])
      else if last == [Dot, Dot] then None
      else Some(last)
  }

  /** The position of the last dot in `s`, if any. */
  function LastDot(s: OsStr): (i: Option<nat>)
    ensures i.Some? ==> i.value < |s| && s[i.value] == Dot && Dot !in s[i.value + 1..]
    ensures i.None? ==> Dot !in s
  {
    if s == [] then None
    else if s[|s| - 1] == Dot then Some(|s| - 1)
    else LastDot(s[..|s| - 1])
  }

  /** The extension of a file name: what follows its last dot, provided that
      dot is not the name's first unit (`.rbxl` has no extension) and the name
      is not `..`. */
  function NameExtension(name: OsStr): Option<OsStr>
  {
    if name == [Dot, Dot] then None
    else match LastDot(name)
      case None => None
      case Some(i) => if i == 0 then None else Some(name[i + 1..])
  }

  /** `Path::extension`: a path has an extension exactly when it has a file
      name with a dot after its first unit, and the extension is what follows
      the name's last dot, which is neither the name's first unit nor
      followed by another dot. */
  function Extension(p: OsStr): (ext: Option<OsStr>)
    ensures ext.Some? <==> FileName(p).Some? && Dot in FileName(p).value[1..]
    ensures ext.Some? ==>
      var name := FileName(p).value;
      var k := |name| - |ext.value|;
      2 <= k && name[k - 1] == Dot && name[k..] == ext.value
    ensures ext.Some? ==> Dot !in ext.value && Separator !in ext.value
  {
    match FileName(p)
    case None => None
    case Some(name) => NameExtension(name)
  }

  /** Trailing separators do not change the file name. */
  lemma FileNameSkipsSeparator(p: OsStr)
    ensures FileName(p + [Separator]) == FileName(p)
  {
    assert (p + [Separator])[..|p|] == p;
  }

  /** A trailing `.` component does not change the file name: `a/.` is named
      `a`, and `.` has no name. */
  lemma FileNameSkipsCurrentDir(p: OsStr)
    requires p == [] || p[|p| - 1] == Separator
    ensures FileName(p + [Dot]) == FileName(p)
  {
    var q := p + [Dot];
    LastComponentAppend(p, [Dot]);
    assert LastComponent(p) == [];
    assert q[..|q| - 1] == p;
  }

  /** A path ending in a `..` component has no file name. */
  lemma FileNameOfParentDir(p: OsStr)
    requires p == [] || p[|p| - 1] == Separator
    ensures FileName(p + [Dot, Dot]) == None
  {
    var q := p + [Dot, Dot];
    LastComponentAppend(p, [Dot, Dot]);
    assert LastComponent(p) == [];
    assert LastComponent(q) == [Dot, Dot];
    assert q[|q| - 1] == Dot;
  }

  /** The file name is the last normal component: a whole component of `p`
      (ending at `j`, with a separator or the end of `p` after it), and only
      separators and `.` units follow it. */
  lemma {:induction false} FileNameIsLastComponent(p: OsStr) returns (j: nat)
    requires FileName(p).Some?
    ensures j <= |p| && FileName(p).value == LastComponent(p[..j])
    ensures j == |p| || p[j] == Separator
    ensures forall k :: j <= k < |p| ==> p[k] == Separator || p[k] == Dot
    decreases |p|
  {
    var front := p[..|p| - 1];
    if p[|p| - 1] == Separator {
      j := FileNameIsLastComponent(front);
      assert front[..j] == p[..j];
      assert forall k :: j <= k < |front| ==> p[k] == front[k];
    } else if LastComponent(p) == [Dot] {
      assert LastComponent(p) == LastComponent(front) + [p[|p| - 1]];
      assert |LastComponent(front)| == 0;
      assert LastComponent(p)[0] == p[|p| - 1];
      j := FileNameIsLastComponent(front);
      assert front[..j] == p[..j];
      assert forall k :: j <= k < |front| ==> p[k] == front[k];
    } else {
      j := |p|;
      assert p[..j] == p;
    }
  }

  /** `OsStr::to_str`: the characters of `s`, or nothing when `s` is not valid UTF-8. */
  function ToStr(s: OsStr): (r: Option<string>)
    ensures r.Some? <==> forall i :: 0 <= i < |s| ==> s[i].Char?
    ensures r.Some? ==> |r.value| == |s| && forall i :: 0 <= i < |s| ==> s[i] == Char(r.value[i])
  {
    if s == [] then Some([])
    else if s[0].Byte? then None
    else match ToStr(s[1..])
      case None => None
      case Some(rest) => Some([s[0].c] + rest)
  }

  /** `ToStr` undoes `OsString`: text written as an OS string converts back
      to that same text. */
  lemma {:induction false} ToStrOsString(s: string)
    ensures ToStr(OsString(s)) == Some(s)
  {
    var r := ToStr(OsString(s));
    assert r.Some?;
    assert r.value == s;
  }

  lemma {:induction false} LastComponentAppend(p: OsStr, tail: OsStr)
    requires Separator !in tail
    ensures LastComponent(p + tail) == LastComponent(p) + tail
    decreases |tail|
  {
    if tail == [] {
      assert p + tail == p;
    } else {
      var q := p + tail;
      var front, t := tail[..|tail| - 1], tail[|tail| - 1];
      assert tail == front + [t];
      assert t in tail;
      assert Separator !in front by {
        forall u | u in front ensures u != Separator {
          assert u in tail;
        }
      }
      assert q[..|q| - 1] == p + front;
      assert q[|q| - 1] == t;
      LastComponentAppend(p, front);
      calc {
        LastComponent(q);
        LastComponent(p + front) + [t];
        (LastComponent(p) + front) + [t];
        LastComponent(p) + tail;
      }
    }
  }

  lemma {:induction false} LastDotAppend(s: OsStr, tail: OsStr)
    requires Dot !in tail
    ensures LastDot(s + tail) == LastDot(s)
    decreases |tail|
  {
    if tail == [] {
      assert s + tail == s;
    } else {
      var q := s + tail;
      assert q[..|q| - 1] == s + tail[..|tail| - 1];
      assert q[|q| - 1] == tail[|tail| - 1];
      assert tail[|tail| - 1] in tail;
      LastDotAppend(s, tail[..|tail| - 1]);
    }
  }

  /** A path that ends in a unit other than a separator has, as its file
      name, its last component, unless that component is `.` or `..`. */
  lemma FileNameOfLastComponent(p: OsStr)
    requires p != [] && p[|p| - 1] != Separator
    requires LastComponent(p) != [Dot] && LastComponent(p) != [Dot, Dot]
    ensures FileName(p) == Some(LastComponent(p))
  {
  }

  lemma FileNameOfAppended(p: OsStr, ext: OsStr)
    requires p != [] && p[|p| - 1] != Separator
    requires ext != [] && Dot !in ext && Separator !in ext
    ensures LastComponent(p) != []
    ensures FileName(p + ([Dot] + ext)) == Some(LastComponent(p) + ([Dot] + ext))
  {
    var q := p + ([Dot] + ext);
    LastComponentAppend(p, [Dot] + ext);
    var stem := LastComponent(p);
    assert stem == LastComponent(p[..|p| - 1]) + [p[|p| - 1]];
    assert |stem + ([Dot] + ext)| >= 3;
    assert q[|q| - 1] == ext[|ext| - 1];
    assert ext[|ext| - 1] in ext;
    FileNameOfLastComponent(q);
  }

  lemma NameExtensionOfAppended(stem: OsStr, ext: OsStr)
    requires stem != []
    requires ext != [] && Dot !in ext
    ensures NameExtension(stem + ([Dot] + ext)) == Some(ext)
  {
    var name := stem + ([Dot] + ext);
    assert name == (stem + [Dot]) + ext;
    LastDotAppend(stem + [Dot], ext);
    assert LastDot(stem + [Dot]) == Some(|stem|);
    assert name[|stem| + 1..] == ext;
  }

  /** Appending `.` and a dot-free, separator-free, non-empty suffix to a path
      whose last component is non-empty gives that suffix as the extension. */
  lemma ExtensionOfAppended(p: OsStr, ext: OsStr)
    requires p != [] && p[|p| - 1] != Separator
    requires ext != [] && Dot !in ext && Separator !in ext
    ensures Extension(p + [Dot] + ext) == Some(ext)
  {
    assert p + [Dot] + ext == p + ([Dot] + ext);
    FileNameOfAppended(p, ext);
    NameExtensionOfAppended(LastComponent(p), ext);
  }
}
