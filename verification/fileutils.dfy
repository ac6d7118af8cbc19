/** The pure name computations of `FileUtils`: the last path component,
    extension and base name, the extension filter of
    `findFilesByExtension`, and the names `rotateFile` and `backupFile`
    write to. Paths follow the Unix `java.nio.file` provider. */
module FileUtils {
  import opened Results
  import opened Text

  /** The one character a Unix path may not contain. */
  const Nul: char := '\0'

  /** The path with its trailing separators removed. */
  function DropTrailingSlashes(s: string): (r: string)
    ensures |r| <= |s| && r == s[..|r|]
    ensures forall i :: |r| <= i < |s| ==> s[i] == '/'
    ensures r != [] ==> r[|r| - 1] != '/'
    decreases |s|
  {
    if s != [] && s[|s| - 1] == '/' then DropTrailingSlashes(s[..|s| - 1]) else s
  }

  /** `n` sits at position `k` of `path`, right after a separator (or at the
      start), followed by nothing but separators. */
  predicate LastComponentAt(path: string, n: string, k: int) {
    && 0 <= k && k + |n| <= |path| && path[k..k + |n|] == n
    && (k == 0 || path[k - 1] == '/')
    && forall i :: k + |n| <= i < |path| ==> path[i] == '/'
  }

  /** `Path.of(path).getFileName().toString()`: the last non-empty component.
      `Path.of` rejects a NUL character; the empty path names itself; a path
      made only of separators is the root, whose file name is `null`, so
      `toString()` throws. */
  function FileName(path: string): (r: Result<string>)
    ensures r == Err(InvalidPath) <==> Nul in path
    ensures r == Err(NullPointer) <==> Nul !in path && path != [] && forall i :: 0 <= i < |path| ==> path[i] == '/'
    ensures path == [] ==> r == Ok([])
    ensures r.Ok? && path != [] ==>
      r.value != [] && '/' !in r.value && exists k :: LastComponentAt(path, r.value, k)
  {
    if Nul in path then Err(InvalidPath)
    else
      var t := DropTrailingSlashes(path);
      if t == [] then
        if path == [] then Ok([])
        else
          assert forall i :: 0 <= i < |path| ==> path[i] == '/';
          Err(NullPointer)
      else
        var k := LastIndexOf(t, '/') + 1;
        var n := t[k..];
        assert t[|t| - 1] != '/' && t[|t| - 1] == n[|n| - 1];
        assert '/' !in n by {
          assert t[k..] == t[LastIndexOf(t, '/') + 1..];
        }
        assert path[k..k + |n|] == n;
        assert k > 0 ==> path[k - 1] == t[k - 1];
        assert LastComponentAt(path, n, k);
        Ok(n)
  }

  /** A name placed under a directory is that path's file name. */
  lemma FileNameOfChild(dir: string, name: string)
    requires name != [] && '/' !in name && Nul !in name && Nul !in dir
    ensures FileName(dir + "/" + name) == Ok(name)
  {
    var path := dir + "/" + name;
    assert Nul !in path by {
      forall i | 0 <= i < |path| ensures path[i] != Nul {
        if i < |dir| {
          assert path[i] == dir[i];
        } else if i > |dir| {
          assert path[i] == name[i - |dir| - 1];
        }
      }
    }
    assert path[|path| - 1] == name[|name| - 1];
    assert DropTrailingSlashes(path) == path;
    var k := LastIndexOf(path, '/');
    assert path[|dir|] == '/';
    assert k == |dir|;
    assert path[k + 1..] == name;
  }

  /** `extension(p)`: the text after the last `.` of the file name, when
      that dot is not its first character; otherwise empty. */
  function Extension(name: string): (r: string)
    ensures '.' !in r
    ensures |r| < |name| || r == []
  {
    var i := LastIndexOf(name, '.');
    if i > 0 then name[i + 1..] else ""
  }

  /** `basename(p)`: the text before the last `.` of the file name, when
      that dot is not its first character; otherwise the whole name. */
  function Basename(name: string): (r: string)
    ensures |r| <= |name| && r == name[..|r|]
    ensures r != []  <==> name != []
  {
    var i := LastIndexOf(name, '.');
    if i > 0 then name[..i] else name
  }

  /** When the last dot is past the first character, base name, dot and
      extension put back together give the name. */
  lemma BasenameExtensionSplit(name: string)
    requires LastIndexOf(name, '.') > 0
    ensures Basename(name) + "." + Extension(name) == name
    ensures Basename(name) != [] && '.' !in Extension(name)
  {
    var i := LastIndexOf(name, '.');
    assert name == name[..i] + [name[i]] + name[i + 1..];
    assert Basename(name) == name[..i];
    assert Extension(name) == name[i + 1..];
  }

  /** A name with no dot past its first character (no dot at all, or a
      hidden file such as ".bashrc") has no extension and is its own base
      name. */
  lemma NoInnerDot(name: string)
    requires forall i :: 0 < i < |name| ==> name[i] != '.'
    ensures Extension(name) == [] && Basename(name) == name
  {
  }

  lemma HiddenFileExample()
    ensures Extension(".bashrc") == [] && Basename(".bashrc") == ".bashrc"
    ensures Extension("dados.2024.json") == "json" && Basename("dados.2024.json") == "dados.2024"
  {
    NoInnerDot(".bashrc");
    var n := "dados.2024.json";
    assert n[11..] == "json";
    LastIndexOfAt(n, '.', 10);
    assert n[..10] == "dados.2024";
  }

  // ---------------------------------------------------------------------
  // findFilesByExtension
  // ---------------------------------------------------------------------

  /** The requested extension with one leading `.` dropped. */
  function NormalizeExtension(ext: string): (r: string)
    ensures ext != [] && ext[0] == '.' ==> ext == "." + r
    ensures (ext == [] || ext[0] != '.') ==> r == ext
  {
    if |ext| > 0 && ext[0] == '.' then ext[1..] else ext
  }

  /** ASCII upper-casing (`Character.toUpperCase` on ASCII). */
  function UpperAscii(c: char): char {
    if 'a' <= c <= 'z' then (c as int - 32) as char else c
  }

  /** `String.equalsIgnoreCase` for characters whose case mapping is ASCII. */
  predicate EqualsIgnoreCase(a: string, b: string) {
    |a| == |b| && forall i :: 0 <= i < |a| ==> UpperAscii(a[i]) == UpperAscii(b[i])
  }

  /** The filter `findFilesByExtension(root, ext)` applies to each file. */
  predicate MatchesExtension(name: string, ext: string) {
    EqualsIgnoreCase(Extension(name), NormalizeExtension(ext))
  }

  /** Asking for ".json" and for "json" select the same files. */
  lemma LeadingDotIgnored(name: string, ext: string)
    requires ext == [] || ext[0] != '.'
    ensures MatchesExtension(name, "." + ext) <==> MatchesExtension(name, ext)
  {
    assert NormalizeExtension("." + ext) == ext;
  }

  /** Only one dot is dropped, and an extension never holds a dot, so a
      request such as "..json" selects nothing. */
  lemma DoubleDotMatchesNothing(name: string, ext: string)
    ensures !MatchesExtension(name, ".." + ext)
  {
    var e := NormalizeExtension(".." + ext);
    assert e == "." + ext;
    var x := Extension(name);
    if |x| == |e| {
      assert x[0] != '.';
      assert UpperAscii(x[0]) != UpperAscii(e[0]);
    }
  }

  /** "cotacoes.JSON" is selected by a request for ".json". */
  lemma CaseInsensitiveExample()
    ensures MatchesExtension("cotacoes.JSON", ".json")
  {
    var n := "cotacoes.JSON";
    assert n[9..] == "JSON";
    LastIndexOfAt(n, '.', 8);
    assert Extension(n) == "JSON";
    assert NormalizeExtension(".json") == "json";
    assert UpperAscii('j') == 'J' && UpperAscii('s') == 'S' && UpperAscii('o') == 'O' && UpperAscii('n') == 'N';
  }

  /** Only the last extension counts: "cotacoes.json.bak" is not JSON. */
  lemma LastExtensionExample()
    ensures !MatchesExtension("cotacoes.json.bak", "json")
  {
    var m := "cotacoes.json.bak";
    assert m[14..] == "bak";
    LastIndexOfAt(m, '.', 13);
    assert Extension(m) == "bak";
  }

  // ---------------------------------------------------------------------
  // rotateFile / backupFile
  // ---------------------------------------------------------------------

  /** `base + "_" + i + (ext.isEmpty() ? "" : "." + ext)`, the `int` `i`
      rendered by `Integer.toString`. */
  function RotationName(base: string, ext: string, i: int): string {
    base + "_" + IntToString(i) + (if ext == [] then "" else "." + ext)
  }

  lemma MiddleCancels(a: string, x: string, y: string, c: string)
    requires a + x + c == a + y + c
    ensures x == y
  {
    var l := a + x + c;
    assert |x| == |y|;
    forall k | 0 <= k < |x| ensures x[k] == y[k] {
      assert l[|a| + k] == x[k];
      assert (a + y + c)[|a| + k] == y[k];
    }
  }

  /** Distinct slots have distinct names. */
  lemma RotationNameInjective(base: string, ext: string, i: int, j: int)
    requires RotationName(base, ext, i) == RotationName(base, ext, j)
    ensures i == j
  {
    var suffix := if ext == [] then "" else "." + ext;
    assert RotationName(base, ext, i) == (base + "_") + IntToString(i) + suffix;
    assert RotationName(base, ext, j) == (base + "_") + IntToString(j) + suffix;
    MiddleCancels(base + "_", IntToString(i), IntToString(j), suffix);
    IntToStringInjective(i, j);
  }

  /** Java `int` arithmetic: the value congruent to `x` modulo 2^32 that
      lies in `int` range, as `keep - 1` and `i + 1` wrap around. */
  function Wrap32(x: int): (r: int)
    ensures -0x8000_0000 <= r < 0x8000_0000
    ensures (x - r) % 0x1_0000_0000 == 0
    ensures -0x8000_0000 <= x < 0x8000_0000 ==> r == x
  {
    var m := (x + 0x8000_0000) % 0x1_0000_0000;
    m - 0x8000_0000
  }

  /** The loop `for (int i = keep - 1; i >= 1; i--)` of `rotateFile`, as the
      slot moves it attempts: slot `i` is copied onto slot `i + 1`, both
      `int`, from the highest slot down. */
  function RotationMoves(keep: int): (r: seq<(int, int)>)
    requires -0x8000_0000 <= keep < 0x8000_0000
    ensures |r| == if Wrap32(keep - 1) >= 1 then Wrap32(keep - 1) else 0
    ensures forall k :: 0 <= k < |r| ==> r[k].0 >= 1 && r[k].1 == Wrap32(r[k].0 + 1)
    ensures forall k :: 0 <= k < |r| && r[k].0 < 0x7FFF_FFFF ==> r[k].1 == r[k].0 + 1
    ensures forall k :: 0 <= k < |r| ==> r[k].0 == |r| - k
    ensures forall k, l :: 0 <= k < |r| && 0 <= l < |r| && r[k].0 == r[l].1 ==> k < l
  {
    var start := Wrap32(keep - 1);
    if start < 1 then [] else seq(start, k requires 0 <= k < start => (start - k, Wrap32(start - k + 1)))
  }

  /** `keep == Integer.MIN_VALUE` wraps `keep - 1` to `Integer.MAX_VALUE`,
      so the loop walks down from the largest slot instead of doing nothing,
      and its first target `i + 1` wraps to `Integer.MIN_VALUE`. */
  lemma RotationMovesWrap()
    ensures |RotationMoves(-0x8000_0000)| == 0x7FFF_FFFF
    ensures RotationMoves(-0x8000_0000)[0] == (0x7FFF_FFFF, -0x8000_0000)
    ensures |RotationMoves(0)| == 0 && |RotationMoves(1)| == 0 && |RotationMoves(3)| == 2
  {
  }

  /** The copies `rotateFile` attempts, as (from, to) file names. */
  function RotationCopies(base: string, ext: string, keep: int): (r: seq<(string, string)>)
    requires -0x8000_0000 <= keep < 0x8000_0000
    ensures |r| == |RotationMoves(keep)|
  {
    var moves := RotationMoves(keep);
    seq(|moves|, k requires 0 <= k < |moves| =>
      (RotationName(base, ext, moves[k].0), RotationName(base, ext, moves[k].1)))
  }

  /** With `keep == Integer.MIN_VALUE` the first copy goes to a slot named
      with a minus sign, `base_-2147483648`. */
  lemma RotationCopiesWrap(base: string, ext: string)
    ensures var suffix := if ext == [] then "" else "." + ext;
      RotationCopies(base, ext, -0x8000_0000)[0].1 == base + "_-" + NatToString(0x8000_0000) + suffix
  {
    var m := RotationMoves(-0x8000_0000);
    RotationMovesWrap();
    assert m[0] == (0x7FFF_FFFF, -0x8000_0000);
    RotationNameNegative(base, ext, m[0].1);
  }

  /** A negative slot is named with a minus sign before its magnitude. */
  lemma RotationNameNegative(base: string, ext: string, i: int)
    requires i < 0
    ensures var suffix := if ext == [] then "" else "." + ext;
      RotationName(base, ext, i) == base + "_-" + NatToString(-i) + suffix
  {
    var suffix := if ext == [] then "" else "." + ext;
    assert IntToString(i) == "-" + NatToString(-i);
    assert base + "_" + ("-" + NatToString(-i)) + suffix == base + "_-" + NatToString(-i) + suffix;
  }

  /** Every rotation file is read before it is overwritten: when one copy
      writes the name another copy reads, the reading copy comes first. */
  lemma RotationReadsBeforeWrites(base: string, ext: string, keep: int)
    requires -0x8000_0000 <= keep < 0x8000_0000
    ensures var r := RotationCopies(base, ext, keep);
      forall k, l :: 0 <= k < |r| && 0 <= l < |r| && r[k].0 == r[l].1 ==> k < l
  {
    var moves := RotationMoves(keep);
    var r := RotationCopies(base, ext, keep);
    forall k, l | 0 <= k < |r| && 0 <= l < |r| && r[k].0 == r[l].1 ensures k < l {
      RotationNameInjective(base, ext, moves[k].0, moves[l].1);
    }
  }

  /** The copy of the live file goes to slot 1: `base + "_1"` plus the
      extension. */
  function FirstRotationName(base: string, ext: string): (r: string)
    ensures r == base + "_1" + (if ext == [] then "" else "." + ext)
  {
    RotationName(base, ext, 1)
  }

  /** `backupFile`'s target: `basename + "_" + ts + "." + extension`. */
  function BackupName(name: string, ts: string): string {
    Basename(name) + "_" + ts + "." + Extension(name)
  }

  /** Without an extension the backup name ends in a bare dot. */
  lemma BackupNameOfExtensionless(name: string, ts: string)
    requires Extension(name) == []
    ensures BackupName(name, ts)[|BackupName(name, ts)| - 1] == '.'
  {
  }

  /** A timestamp without dots keeps the extension where it was: the backup
      has the original's extension, and its base name is the original's
      with the timestamp appended. */
  lemma BackupNameKeepsExtension(name: string, ts: string)
    requires '.' !in ts
    ensures Extension(BackupName(name, ts)) == Extension(name)
    ensures Basename(BackupName(name, ts)) == Basename(name) + "_" + ts
  {
    var head := Basename(name) + "_" + ts;
    var e := Extension(name);
    var b := BackupName(name, ts);
    assert b == head + "." + e;
    assert b[|head|] == '.';
    assert '.' !in b[|head| + 1..] by {
      assert b[|head| + 1..] == e;
    }
    var i := LastIndexOf(b, '.');
    assert i == |head|;
    assert b[i + 1..] == e;
    assert b[..i] == head;
  }
}
