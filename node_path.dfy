/**
 * The extension that Node's POSIX `path.parse(p).ext` reports, which
 * lib/spa-request-origin/index.mjs uses to tell an asset request from a
 * client-side route.
 */
module NodePath {
  import opened Wrappers

  /** `p` without its run of trailing `/`. */
  function TrimTrailingSlashes(p: string): (r: string)
    ensures r <= p
    ensures r == [] || r[|r| - 1] != '/'
    ensures forall i :: |r| <= i < |p| ==> p[i] == '/'
    decreases |p|
  {
    if p != [] && p[|p| - 1] == '/' then TrimTrailingSlashes(p[..|p| - 1]) else p
  }

  /** The text after the last `/` of `p` (all of `p` when it has none). */
  function AfterLastSlash(p: string): (r: string)
    ensures '/' !in r
    ensures |r| <= |p| && r == p[|p| - |r|..]
    ensures |r| == |p| || p[|p| - |r| - 1] == '/'
    decreases |p|
  {
    if p == [] || p[|p| - 1] == '/' then []
    else
      var init := p[..|p| - 1];
      var r := AfterLastSlash(init);
      var k := |init| - |r|;
      assert p == init + [p[|p| - 1]];
      assert p[k..] == init[k..] + [p[|p| - 1]];
      r + [p[|p| - 1]]
  }

  /** Index of the last `c` in `s`, if any. */
  function LastIndexOf(s: string, c: char): (r: Option<nat>)
    ensures r.None? <==> c !in s
    ensures r.Some? ==> r.value < |s| && s[r.value] == c
    ensures r.Some? ==> forall j :: r.value < j < |s| ==> s[j] != c
    decreases |s|
  {
    if s == [] then None
    else if s[|s| - 1] == c then Some(|s| - 1)
    else
      assert s == s[..|s| - 1] + [s[|s| - 1]];
      LastIndexOf(s[..|s| - 1], c)
  }

  /**
   * `path.parse(p).base`: the last component once trailing `/` are dropped,
   * that is, the end of the trimmed path back to its last `/` (or to its
   * start). It holds no `/`, and it is empty exactly when `p` is nothing but
   * slashes.
   */
  function Base(p: string): (b: string)
    ensures '/' !in b
    ensures var t := TrimTrailingSlashes(p);
            |b| <= |t| && b == t[|t| - |b|..] && (|b| == |t| || t[|t| - |b| - 1] == '/')
    ensures b == [] <==> forall i :: 0 <= i < |p| ==> p[i] == '/'
  {
    var trimmed := TrimTrailingSlashes(p);
    TrimmedEmptyIffSlashes(p);
    var b := AfterLastSlash(trimmed);
    assert b == [] <==> trimmed == [];
    b
  }

  /** Trimming leaves nothing exactly when the path is nothing but slashes. */
  lemma TrimmedEmptyIffSlashes(p: string)
    ensures TrimTrailingSlashes(p) == [] <==> forall i :: 0 <= i < |p| ==> p[i] == '/'
  {
    var t := TrimTrailingSlashes(p);
    if t != [] {
      assert p[|t| - 1] == t[|t| - 1] != '/';
    }
  }

  /**
   * `path.parse(p).ext`: from the last `.` of the base to its end, except
   * when the base has no `.`, when its only characters before that `.` are
   * none (a dot-file such as `.env`), or when the base is `..`. Node tests
   * the `..` case against the position after the last separator it met
   * while scanning backwards and takes 0 when it met none, so `/..`, whose
   * root `/` is never scanned, keeps the extension `.` while `..` and
   * `a/..` have none.
   */
  function Ext(p: string): (e: string)
    ensures e == [] || (e[0] == '.' && '.' !in e[1..] && '/' !in e)
    ensures e != [] ==> |e| < |Base(p)| && e == Base(p)[|Base(p)| - |e|..]
    ensures e == [] <==>
              || '.' !in Base(p)
              || (Base(p)[0] == '.' && '.' !in Base(p)[1..])
              || (Base(p) == ".." && TrimTrailingSlashes(p) != "/..")
  {
    ExtOfBase(Base(p), TrimTrailingSlashes(p) == "/..")
  }

  /**
   * The extension of a base name: from its last `.` to its end, unless that
   * `.` is the first character, or the base is `..` not directly under the
   * root.
   */
  function ExtOfBase(base: string, underRoot: bool): (e: string)
    requires '/' !in base
    ensures e == [] || (e[0] == '.' && '.' !in e[1..] && '/' !in e)
    ensures e != [] ==> |e| < |base| && e == base[|base| - |e|..]
    ensures e == [] <==>
              || '.' !in base
              || (base[0] == '.' && '.' !in base[1..])
              || (base == ".." && !underRoot)
  {
    match LastIndexOf(base, '.')
    case None => ""
    case Some(d) =>
      LaterDot(base, d);
      if d == 0 then ""
      else if base == ".." && !underRoot then ""
      else base[d..]
  }

  /** With `d` the last dot of `base`, the dot is not the first character exactly when a dot follows the first character, and nothing after `d` is a dot. */
  lemma LaterDot(base: string, d: nat)
    requires LastIndexOf(base, '.') == Some(d)
    ensures '.' in base[1..] <==> d > 0
    ensures base[d..][0] == '.' && '.' !in base[d..][1..]
  {
    if d > 0 {
      assert base[1..][d - 1] == '.';
    } else {
      assert forall j :: 0 <= j < |base| - 1 ==> base[1..][j] == base[j + 1];
    }
    var e := base[d..];
    assert forall j :: 0 <= j < |e| - 1 ==> e[1..][j] == base[d + 1 + j];
  }

  /** Any path ending in `/index.html` has the extension `.html`. */
  lemma ExtOfIndexHtml(prefix: string)
    ensures Ext(prefix + "/index.html") == ".html"
  {
    var p := prefix + "/index.html";
    assert p[|p| - 1] == 'l';
    assert TrimTrailingSlashes(p) == p;
    assert p == prefix + "/" + "index.html";
    AfterLastSlashOfJoined(prefix, "index.html");
    LastDotOfIndexHtml();
  }

  lemma LastDotOfIndexHtml()
    ensures LastIndexOf("index.html", '.') == Some(5)
  {
    var s := "index.html";
    assert s[..|s| - 1] == "index.htm";
    assert "index.htm"[..8] == "index.ht";
    assert "index.ht"[..7] == "index.h";
    assert "index.h"[..6] == "index.";
  }

  lemma {:induction false} AfterLastSlashOfJoined(a: string, b: string)
    requires '/' !in b
    ensures AfterLastSlash(a + "/" + b) == b
    decreases |b|
  {
    var p := a + "/" + b;
    if b == [] {
      assert p[|p| - 1] == '/';
    } else {
      assert p[..|p| - 1] == a + "/" + b[..|b| - 1];
      AfterLastSlashOfJoined(a, b[..|b| - 1]);
      assert b == b[..|b| - 1] + [b[|b| - 1]];
    }
  }

  /**
   * A file name `stem.suffix` has the extension `.suffix`, dot-led stems
   * included (`.a.b` has `.b`, `..env` has `.env`); only the parent entry
   * `..` is set apart.
   */
  lemma ExtOfFile(dir: string, stem: string, suffix: string)
    requires stem != [] && '/' !in stem
    requires '.' !in suffix && '/' !in suffix
    requires stem + "." + suffix != ".."
    ensures Ext(dir + "/" + stem + "." + suffix) == "." + suffix
  {
    var base := stem + "." + suffix;
    assert dir + "/" + stem + "." + suffix == dir + "/" + base;
    assert base[|stem|..] == "." + suffix;
    assert '/' !in base;
    LastIndexOfJoined(stem, suffix, '.');
    ExtOfName(dir, base, |stem|);
  }

  /** The extension of `dir/base`, for a base other than `..` with a dot after its first character, is the base from its last dot on. */
  lemma ExtOfName(dir: string, base: string, d: nat)
    requires base != [] && base != ".." && '/' !in base
    requires LastIndexOf(base, '.') == Some(d) && d > 0
    ensures Ext(dir + "/" + base) == base[d..]
  {
    NameAfterSlash(dir, base);
  }

  /** The parent entry `..` under any directory, as in `a/..` or `//..`, has no extension. */
  lemma ParentEntryHasNoExt(dir: string)
    requires dir != []
    ensures Ext(dir + "/..") == ""
  {
    var p := dir + "/..";
    assert p == dir + "/" + "..";
    NameAfterSlash(dir, "..");
    LastDotOfParent();
    assert |TrimTrailingSlashes(p)| > |"/" + ".."|;
  }

  lemma LastDotOfParent()
    ensures LastIndexOf("..", '.') == Some(1)
  {
    assert ".."[1] == '.';
  }

  /** A bare `..` has no extension either. */
  lemma BareParentHasNoExt()
    ensures Ext("..") == ""
  {
    assert TrimTrailingSlashes("..") == "..";
    assert '/' !in "..";
    LastDotOfParent();
  }

  /**
   * Node's quirk: in `/..` the root `/` is never reached by the backward
   * scan, so the `..` exception does not fire and the extension is `.`.
   */
  lemma RootParentHasDotExt()
    ensures Ext("/..") == "."
  {
    NameAfterSlash("", "..");
    LastDotOfParent();
    assert "" + "/" + ".." == "/..";
    assert ".."[1..] == ".";
  }

  /** `dir/base` with a non-empty base free of `/` has nothing to trim and `base` as its last component. */
  lemma NameAfterSlash(dir: string, base: string)
    requires base != [] && '/' !in base
    ensures TrimTrailingSlashes(dir + "/" + base) == dir + "/" + base
    ensures AfterLastSlash(dir + "/" + base) == base
  {
    var p := dir + "/" + base;
    assert p[|p| - 1] == base[|base| - 1];
    AfterLastSlashOfJoined(dir, base);
  }

  lemma {:induction false} LastIndexOfJoined(x: string, y: string, c: char)
    requires c !in y
    ensures LastIndexOf(x + [c] + y, c) == Some(|x|)
  {
    var s := x + [c] + y;
    assert s[|x|] == c;
    var r := LastIndexOf(s, c);
    assert forall j :: |x| < j < |s| ==> s[j] == y[j - |x| - 1];
    assert r.value <= |x|;
    assert r.value >= |x|;
  }

  /** A dot-file name such as `/.env` or `/.well-known/` has no extension. */
  lemma DotFileHasNoExt(dir: string, name: string)
    requires '.' !in name && '/' !in name
    ensures Ext(dir + "/." + name) == ""
  {
    var base := "." + name;
    assert dir + "/." + name == dir + "/" + base;
    assert base == "" + ['.'] + name;
    LastIndexOfJoined("", name, '.');
    ExtOfDotName(dir, base);
  }

  lemma ExtOfDotName(dir: string, base: string)
    requires base != [] && '/' !in base && LastIndexOf(base, '.') == Some(0)
    ensures Ext(dir + "/" + base) == ""
  {
    NameAfterSlash(dir, base);
  }
}
