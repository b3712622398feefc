/**
 * The version logic of build.rs: cutting the package version at its first
 * pre-release or build-metadata separator, and turning the result into the
 * four-part version that Windows resources carry.
 */
module Version {
  import opened Wrappers

  /** The separator test of the closure at build.rs:25. */
  predicate IsVersionSeparator(c: char) {
    c == '-' || c == '+'
  }

  /** The field separator of a dotted version. */
  predicate IsDot(c: char) { c == '.' }

  /** No character of `s` is a separator. */
  predicate NoneMatch(s: string, isSep: char -> bool) {
    forall c :: c in s ==> !isSep(c)
  }

  /**
   * Rust's `str::split` with a character predicate: the pieces between the
   * separators, in order. Every string, the empty one included, yields at
   * least one piece; adjacent, leading or trailing separators yield empty
   * pieces.
   */
  function Split(s: string, isSep: char -> bool): (parts: seq<string>)
    ensures |parts| >= 1
  {
    if s == [] then [""]
    else
      var rest := Split(s[1..], isSep);
      if isSep(s[0]) then [""] + rest
      else Extend(s[0], rest)
  }

  /** A character that is not a separator joins the piece that follows it. */
  function Extend(ch: char, parts: seq<string>): seq<string>
    requires |parts| >= 1
  {
    [[ch] + parts[0]] + parts[1..]
  }

  lemma ExtendAppend(ch: char, p: seq<string>, q: seq<string>)
    requires |p| >= 1
    ensures Extend(ch, p + q) == Extend(ch, p) + q
  {
    assert (p + q)[1..] == p[1..] + q;
  }

  /** No piece of a split contains a separator. */
  lemma {:induction false} SplitPiecesClean(s: string, isSep: char -> bool)
    ensures forall i :: 0 <= i < |Split(s, isSep)| ==> NoneMatch(Split(s, isSep)[i], isSep)
  {
    if s != [] {
      SplitPiecesClean(s[1..], isSep);
      var rest := Split(s[1..], isSep);
      if !isSep(s[0]) {
        var parts := Split(s, isSep);
        assert parts == Extend(s[0], rest);
        forall i | 0 <= i < |parts| ensures NoneMatch(parts[i], isSep) {
          if i == 0 {
            assert forall c :: c in [s[0]] + rest[0] ==> c == s[0] || c in rest[0];
          } else {
            assert parts[i] == rest[i];
          }
        }
      }
    }
  }

  /**
   * The first piece of a split is a prefix of the input that ends at its
   * first separator, or at its end when it has none.
   */
  lemma {:induction false} SplitFirstPiece(s: string, isSep: char -> bool)
    ensures Split(s, isSep)[0] <= s
    ensures NoneMatch(Split(s, isSep)[0], isSep)
    ensures |Split(s, isSep)[0]| == |s| || isSep(s[|Split(s, isSep)[0]|])
  {
    SplitPiecesClean(s, isSep);
    if s != [] && !isSep(s[0]) {
      SplitFirstPiece(s[1..], isSep);
      var rest := Split(s[1..], isSep);
      assert Split(s, isSep)[0] == [s[0]] + rest[0];
      assert s == [s[0]] + s[1..];
    }
  }

  /** The separators of `s`, in order: what `Split` throws away. */
  function Separators(s: string, isSep: char -> bool): (seps: string)
    ensures forall c :: c in seps ==> isSep(c)
  {
    if s == [] then []
    else (if isSep(s[0]) then [s[0]] else []) + Separators(s[1..], isSep)
  }

  /** Puts the pieces back together with one separator between each two. */
  function Join(parts: seq<string>, seps: string): string
    requires |parts| == |seps| + 1
  {
    if seps == [] then parts[0]
    else parts[0] + [seps[0]] + Join(parts[1..], seps[1..])
  }

  /** Extending the first piece extends the joined string by the same character. */
  lemma JoinExtend(ch: char, parts: seq<string>, seps: string)
    requires |parts| == |seps| + 1
    ensures Join(Extend(ch, parts), seps) == [ch] + Join(parts, seps)
  {
    var ext := Extend(ch, parts);
    if seps != [] {
      calc {
        Join(ext, seps);
        ([ch] + parts[0]) + [seps[0]] + Join(parts[1..], seps[1..]);
        [ch] + (parts[0] + [seps[0]] + Join(parts[1..], seps[1..]));
      }
    }
  }

  /** `Split` loses nothing but the separators: joining its pieces with them gives `s` back. */
  lemma {:induction false} SplitJoin(s: string, isSep: char -> bool)
    ensures |Split(s, isSep)| == |Separators(s, isSep)| + 1
    ensures Join(Split(s, isSep), Separators(s, isSep)) == s
  {
    if s != [] {
      var rest, seps := Split(s[1..], isSep), Separators(s[1..], isSep);
      SplitJoin(s[1..], isSep);
      assert s == [s[0]] + s[1..];
      if isSep(s[0]) {
        assert Separators(s, isSep) == [s[0]] + seps;
        assert ([""] + rest)[1..] == rest;
        assert ([s[0]] + seps)[1..] == seps;
      } else {
        assert Separators(s, isSep) == seps;
        JoinExtend(s[0], rest, seps);
      }
    }
  }

  /** Splitting at a separator splits the two sides independently. */
  lemma {:induction false} SplitAppend(a: string, c: char, b: string, isSep: char -> bool)
    requires isSep(c)
    ensures Split(a + [c] + b, isSep) == Split(a, isSep) + Split(b, isSep)
  {
    var s := a + [c] + b;
    if a == [] {
      assert s == [c] + b;
      assert s[1..] == b;
      assert Split(s, isSep) == [""] + Split(b, isSep);
    } else {
      assert s[0] == a[0];
      assert s[1..] == a[1..] + [c] + b;
      SplitAppend(a[1..], c, b, isSep);
      var left := Split(a[1..], isSep);
      var right := Split(b, isSep);
      assert Split(s[1..], isSep) == left + right;
      if isSep(a[0]) {
        assert [""] + (left + right) == ([""] + left) + right;
      } else {
        ExtendAppend(a[0], left, right);
      }
    }
  }

  /** A string without separators is a single piece. */
  lemma {:induction false} SplitNoSeparator(s: string, isSep: char -> bool)
    requires NoneMatch(s, isSep)
    ensures Split(s, isSep) == [s]
  {
    if s != [] {
      assert s[0] in s;
      assert forall c :: c in s[1..] ==> c in s;
      SplitNoSeparator(s[1..], isSep);
      assert s == [s[0]] + s[1..];
    }
  }

  /**
   * The base version of build.rs:24-27: the first piece of the package
   * version split at `-` and `+`. The `unwrap` there never fails, because
   * `Split` always yields a first piece.
   */
  function BaseVersion(version: string): (base: string)
    ensures base <= version
    ensures NoneMatch(base, IsVersionSeparator)
    ensures |base| == |version| || IsVersionSeparator(version[|base|])
  {
    // Taking the first piece is `.next().unwrap()`; the index bound Dafny
    // checks here is the proof that the `unwrap` cannot fail.
    SplitFirstPiece(version, IsVersionSeparator);
    Split(version, IsVersionSeparator)[0]
  }

  /**
   * The three postconditions of `BaseVersion` pin it down: any prefix of the
   * version free of separators that ends at a separator or at the end of
   * the version is the base version.
   */
  lemma BaseVersionUnique(version: string, p: string)
    requires p <= version
    requires NoneMatch(p, IsVersionSeparator)
    requires |p| == |version| || IsVersionSeparator(version[|p|])
    ensures p == BaseVersion(version)
  {
    var q := BaseVersion(version);
    assert p == version[..|p|] && q == version[..|q|];
  }

  /** Stripping a base version again changes nothing. */
  lemma BaseVersionIdempotent(version: string)
    ensures BaseVersion(BaseVersion(version)) == BaseVersion(version)
  {
    var b := BaseVersion(version);
    BaseVersionUnique(b, b);
  }

  /** A Semantic Versioning 2.0.0 string: core, optional pre-release, optional build metadata. */
  function SemVer(core: string, pre: Option<string>, meta: Option<string>): string {
    core
      + (match pre case Some(p) => "-" + p case None => "")
      + (match meta case Some(m) => "+" + m case None => "")
  }

  /** The base version of `core[-pre][+meta]` is `core`, whichever parts are present. */
  lemma BaseVersionOfSemVer(core: string, pre: Option<string>, meta: Option<string>)
    requires NoneMatch(core, IsVersionSeparator)
    ensures BaseVersion(SemVer(core, pre, meta)) == core
  {
    var v := SemVer(core, pre, meta);
    assert core <= v;
    if pre.Some? {
      assert v[|core|] == '-';
    } else if meta.Some? {
      assert v[|core|] == '+';
    } else {
      assert v == core;
    }
    BaseVersionUnique(v, core);
  }

  /** The dot-separated fields of a version. */
  function DotFields(s: string): seq<string> {
    Split(s, IsDot)
  }

  /**
   * The Windows version of build.rs:29: it starts with the base version and
   * has the base version's dot fields followed by one more field `0`.
   */
  function WinVersion(base: string): (win: string)
    ensures |win| == |base| + 2 && win[..|base|] == base
    ensures DotFields(win) == DotFields(base) + ["0"]
  {
    SplitAppend(base, '.', "0", IsDot);
    SplitNoSeparator("0", IsDot);
    assert base + ".0" == base + ['.'] + "0";
    base + ".0"
  }

  /** A non-empty run of decimal digits: one numeric field of a version core. */
  predicate IsNumeric(s: string) {
    s != [] && forall c :: c in s ==> '0' <= c <= '9'
  }

  /** A numeric field holds neither a dot nor a version separator. */
  lemma NumericHasNoSeparator(s: string)
    requires IsNumeric(s)
    ensures NoneMatch(s, IsDot) && NoneMatch(s, IsVersionSeparator)
  {
  }

  /** A version core `X.Y.Z` has the three dot fields X, Y and Z. */
  lemma CoreFields(x: string, y: string, z: string)
    requires IsNumeric(x) && IsNumeric(y) && IsNumeric(z)
    ensures DotFields(x + "." + y + "." + z) == [x, y, z]
  {
    NumericHasNoSeparator(x);
    NumericHasNoSeparator(y);
    NumericHasNoSeparator(z);
    assert x + "." + y + "." + z == x + ['.'] + (y + ['.'] + z);
    SplitAppend(x, '.', y + ['.'] + z, IsDot);
    SplitAppend(y, '.', z, IsDot);
    SplitNoSeparator(x, IsDot);
    SplitNoSeparator(y, IsDot);
    SplitNoSeparator(z, IsDot);
  }

  /**
   * For a package version `X.Y.Z[-pre][+meta]`, the Windows version has the
   * four fields X, Y, Z and 0.
   */
  lemma WinVersionOfNumericCore(x: string, y: string, z: string, pre: Option<string>, meta: Option<string>)
    requires IsNumeric(x) && IsNumeric(y) && IsNumeric(z)
    ensures DotFields(WinVersion(BaseVersion(SemVer(x + "." + y + "." + z, pre, meta)))) == [x, y, z, "0"]
  {
    var core := x + "." + y + "." + z;
    NumericHasNoSeparator(x);
    NumericHasNoSeparator(y);
    NumericHasNoSeparator(z);
    assert forall c :: c in core ==> c in x || c == '.' || c in y || c in z;
    BaseVersionOfSemVer(core, pre, meta);
    CoreFields(x, y, z);
  }

  /** The example in the build script's comments: pre-release and build metadata both go. */
  lemma ExamplePreReleaseAndMetadata()
    ensures BaseVersion("1.2.3-alpha+abc123") == "1.2.3"
    ensures WinVersion(BaseVersion("1.2.3-alpha+abc123")) == "1.2.3.0"
  {
    assert SemVer("1.2.3", Some("alpha"), Some("abc123")) == "1.2.3-alpha+abc123";
    BaseVersionOfSemVer("1.2.3", Some("alpha"), Some("abc123"));
  }

  /** A plain release version is its own base version. */
  lemma ExampleRelease()
    ensures BaseVersion("1.2.3") == "1.2.3"
    ensures WinVersion(BaseVersion("1.2.3")) == "1.2.3.0"
  {
    BaseVersionUnique("1.2.3", "1.2.3");
  }

  /** The empty version is not rejected: its base is empty and its Windows version `.0`. */
  lemma ExampleEmpty()
    ensures BaseVersion("") == ""
    ensures WinVersion(BaseVersion("")) == ".0"
  {
  }
}
