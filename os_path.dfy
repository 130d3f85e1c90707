/**
 * Rust's `OsStr` / `Path` as far as the watcher and the Rust server use
 * them: `to_string_lossy`, `to_str`, `file_name` and `extension` on Unix,
 * where `/` is the only separator.
 */
module OsPath {
  import opened Wrappers

  /**
   * One unit of an OS string: a character, or a byte sequence that is not
   * UTF-8 (which `to_string_lossy` prints as one U+FFFD).
   */
  datatype Unit = Ch(c: char) | Invalid(b: bv8)

  type OsString = seq<Unit>

  function FromString(s: string): (p: OsString)
    ensures |p| == |s| && forall i | 0 <= i < |s| :: p[i] == Ch(s[i])
    decreases |s|
  {
    if s == [] then [] else [Ch(s[0])] + FromString(s[1..])
  }

  /** `to_string_lossy`. */
  function Lossy(p: OsString): (s: string)
    ensures |s| == |p|
    ensures forall i | 0 <= i < |p| :: s[i] == (if p[i].Ch? then p[i].c else '\U{FFFD}')
    decreases |p|
  {
    if p == [] then []
    else [if p[0].Ch? then p[0].c else '\U{FFFD}'] + Lossy(p[1..])
  }

  predicate IsUtf8(p: OsString) {
    forall i | 0 <= i < |p| :: p[i].Ch?
  }

  /** `to_str`: the text when the string is valid UTF-8. */
  function ToStr(p: OsString): (r: Option<string>)
    ensures r.Some? <==> IsUtf8(p)
    ensures r.Some? ==> r.value == Lossy(p)
  {
    if IsUtf8(p) then Some(Lossy(p)) else None
  }

  lemma LossyFromString(s: string)
    ensures Lossy(FromString(s)) == s && ToStr(FromString(s)) == Some(s)
  {
  }

  /** Distinct texts make distinct OS strings. */
  lemma FromStringInjective(s: string, t: string)
    requires FromString(s) == FromString(t)
    ensures s == t
  {
    LossyFromString(s);
    LossyFromString(t);
  }

  const Slash := Ch('/')
  const Dot := Ch('.')

  predicate SlashFree(p: OsString) {
    forall i | 0 <= i < |p| :: p[i] != Slash
  }

  predicate DotFree(p: OsString) {
    forall i | 0 <= i < |p| :: p[i] != Dot
  }

  /** The pieces between separators, left to right, empty pieces included. */
  function Segments(p: OsString): (r: seq<OsString>)
    ensures |r| >= 1
    decreases |p|
  {
    if p == [] then [[]]
    else
      var init := Segments(p[..|p| - 1]);
      var c := p[|p| - 1];
      if c == Slash then init + [[]]
      else init[..|init| - 1] + [init[|init| - 1] + [c]]
  }

  /** A piece `components` yields as a `Normal` component. */
  predicate IsNormal(seg: OsString) {
    seg != [] && seg != [Dot]
  }

  function Normals(segs: seq<OsString>): (r: seq<OsString>)
    ensures forall i | 0 <= i < |r| :: IsNormal(r[i])
    decreases |segs|
  {
    if segs == [] then []
    else
      var last := segs[|segs| - 1];
      Normals(segs[..|segs| - 1]) + (if IsNormal(last) then [last] else [])
  }

  /** `Path::file_name`: the last normal component, unless the path ends in `..`. */
  function FileName(p: OsString): (r: Option<OsString>)
    ensures r.Some? ==> IsNormal(r.value) && r.value != [Dot, Dot]
  {
    var n := Normals(Segments(p));
    if n == [] || n[|n| - 1] == [Dot, Dot] then None else Some(n[|n| - 1])
  }

  /** The index of the last `.` in `name`, if any. */
  function LastDot(name: OsString): (r: Option<nat>)
    ensures r.Some? ==> r.value < |name| && name[r.value] == Dot && DotFree(name[r.value + 1..])
    ensures r.None? ==> DotFree(name)
    decreases |name|
  {
    if name == [] then None
    else if name[|name| - 1] == Dot then Some(|name| - 1)
    else
      var r := LastDot(name[..|name| - 1]);
      assert name == name[..|name| - 1] + [name[|name| - 1]];
      if r.Some? then
        assert name[r.value + 1..] == name[..|name| - 1][r.value + 1..] + [name[|name| - 1]];
        r
      else r
  }

  /**
   * `Path::extension`: what follows the last `.` of the file name, provided
   * there is a dot and something before it.
   */
  function Extension(p: OsString): (r: Option<OsString>)
    ensures r.Some? ==> FileName(p).Some? && DotFree(r.value)
  {
    match FileName(p)
    case None => None
    case Some(name) =>
      match LastDot(name)
      case None => None
      case Some(k) => if k == 0 then None else Some(name[k + 1..])
  }

  // ---------------------------------------------------------------------------
  // Properties

  /** Appending a separator-free name to a directory prefix adds it as the last piece. */
  lemma {:induction false} SegmentsAppendName(prefix: OsString, name: OsString)
    requires prefix == [] || prefix[|prefix| - 1] == Slash
    requires SlashFree(name)
    ensures var sp := Segments(prefix);
      sp[|sp| - 1] == [] && Segments(prefix + name) == sp[..|sp| - 1] + [name]
    decreases |name|
  {
    var sp := Segments(prefix);
    if name == [] {
      assert prefix + name == prefix;
      if prefix != [] {
        assert Segments(prefix) == Segments(prefix[..|prefix| - 1]) + [[]];
      }
    } else {
      var name' := name[..|name| - 1];
      var c := name[|name| - 1];
      SegmentsAppendName(prefix, name');
      assert (prefix + name)[..|prefix + name| - 1] == prefix + name';
      assert name' + [c] == name;
    }
  }

  lemma NormalsAppend(segs: seq<OsString>, name: OsString)
    requires IsNormal(name)
    ensures Normals(segs + [name]) == Normals(segs) + [name]
  {
    assert (segs + [name])[..|segs|] == segs;
  }

  /** The file name of `dir/name` is `name`. */
  lemma FileNameOfJoin(prefix: OsString, name: OsString)
    requires prefix == [] || prefix[|prefix| - 1] == Slash
    requires SlashFree(name) && IsNormal(name) && name != [Dot, Dot]
    ensures FileName(prefix + name) == Some(name)
  {
    SegmentsAppendName(prefix, name);
    var sp := Segments(prefix);
    NormalsAppend(sp[..|sp| - 1], name);
  }

  /** A file name `stem.ext` with a non-empty stem has extension `ext`. */
  lemma ExtensionOfJoin(prefix: OsString, stem: OsString, ext: OsString)
    requires prefix == [] || prefix[|prefix| - 1] == Slash
    requires stem != [] && SlashFree(stem) && SlashFree(ext) && DotFree(ext)
    requires stem + [Dot] + ext != [Dot, Dot]
    ensures Extension(prefix + (stem + [Dot] + ext)) == Some(ext)
  {
    var name := stem + [Dot] + ext;
    assert name[|stem|] == Dot;
    assert SlashFree(name) by {
      forall i | 0 <= i < |name| ensures name[i] != Slash {
        if i < |stem| {
          assert name[i] == stem[i];
        } else if i > |stem| {
          assert name[i] == ext[i - |stem| - 1];
        }
      }
    }
    FileNameOfJoin(prefix, name);
    LastDotIs(name, |stem|);
    assert name[|stem| + 1..] == ext;
  }

  lemma LastDotIs(name: OsString, k: nat)
    requires k < |name| && name[k] == Dot && DotFree(name[k + 1..])
    ensures LastDot(name) == Some(k)
  {
  }

  /** A file name whose only dot comes first (such as `.md`) has no extension. */
  lemma HiddenFileHasNoExtension(prefix: OsString, ext: OsString)
    requires prefix == [] || prefix[|prefix| - 1] == Slash
    requires ext != [] && SlashFree(ext) && DotFree(ext)
    ensures Extension(prefix + ([Dot] + ext)) == None
  {
    var name := [Dot] + ext;
    assert name[1..] == ext;
    assert name[1] == ext[0];
    assert SlashFree(name) by {
      forall i | 0 <= i < |name| ensures name[i] != Slash {
        if i > 0 {
          assert name[i] == ext[i - 1];
        }
      }
    }
    FileNameOfJoin(prefix, name);
    LastDotIs(name, 0);
  }

  /** A file name without a dot has no extension. */
  lemma DotFreeNameHasNoExtension(prefix: OsString, name: OsString)
    requires prefix == [] || prefix[|prefix| - 1] == Slash
    requires name != [] && SlashFree(name) && DotFree(name)
    ensures Extension(prefix + name) == None
  {
    assert name[0] != Dot;
    FileNameOfJoin(prefix, name);
  }

  /** A path ending in a separator names the directory before it. */
  lemma TrailingSlashIgnored(p: OsString)
    ensures FileName(p + [Slash]) == FileName(p)
  {
    var q := p + [Slash];
    assert q[..|q| - 1] == p;
    var sp := Segments(p);
    assert Segments(q) == sp + [[]];
    assert Normals(sp + [[]]) == Normals(sp) by {
      assert (sp + [[]])[..|sp|] == sp;
    }
  }

  /** The root and the empty path have no file name. */
  lemma RootHasNoFileName()
    ensures FileName([Slash]) == None && FileName([]) == None
  {
    assert Segments([Slash]) == [[], []] by {
      assert [Slash][..0] == [];
    }
    assert Normals([[]]) == [];
    var two: seq<OsString> := [[], []];
    assert two[..1] == [[]];
    assert Normals(two) == [];
  }
}
