/**
 * URL handling of the attachment importer: resolving root-relative URLs
 * against the export's base URL, guessing the URL of an image's original
 * thumbnail, and the substring replacement that rewrites stored text.
 */
module Urls {
  import opened Wrappers
  import opened Seqs

  /** The string with every trailing '/' removed (PHP rtrim with '/'). */
  function RTrimSlash(s: string): (r: string)
    ensures r <= s
    ensures r == [] || r[|r| - 1] != '/'
    ensures forall i :: |r| <= i < |s| ==> s[i] == '/'
    decreases |s|
  {
    if s != [] && s[|s| - 1] == '/' then RTrimSlash(s[..|s| - 1]) else s
  }

  /** A URL that starts with '/' followed by at least one more character. */
  predicate IsRootRelative(url: string) {
    |url| >= 2 && url[0] == '/'
  }

  /** A root-relative URL is resolved against the base URL of the exported site; any other URL is kept. */
  function NormalizeUrl(baseUrl: string, url: string): (r: string)
    ensures !IsRootRelative(url) ==> r == url
    ensures IsRootRelative(url) ==> r == RTrimSlash(baseUrl) + url
  {
    if IsRootRelative(url) then RTrimSlash(baseUrl) + url else url
  }

  /** A base URL given with or without trailing slashes yields exactly one '/' at the join. */
  lemma {:induction false} NormalizeJoinsWithOneSlash(baseUrl: string, url: string)
    requires IsRootRelative(url)
    requires RTrimSlash(baseUrl) != []
    ensures var r := NormalizeUrl(baseUrl, url);
      r[|r| - |url|..] == url && r[|r| - |url|] == '/' && r[|r| - |url| - 1] != '/'
  {
    var t := RTrimSlash(baseUrl);
    var r := t + url;
    assert r[|t|..] == url;
    assert r[|t| - 1] == t[|t| - 1];
  }

  /**
   * PHP dirname: trailing slashes are dropped, then the last component,
   * then the slashes before it; "." when no '/' is left before the last
   * component, "/" when only slashes are.
   */
  function DirName(url: string): string {
    var a := RTrimSlash(url);
    if url == [] then ""
    else if a == [] then "/"
    else match LastIndexOf(a, '/')
      case None => "."
      case Some(i) => var d := RTrimSlash(a[..i]); if d == [] then "/" else d
  }

  /** PHP basename: the last component, trailing slashes dropped. */
  function BaseName(url: string): string {
    var a := RTrimSlash(url);
    match LastIndexOf(a, '/')
    case None => a
    case Some(i) => a[i + 1..]
  }

  /** The part of a file name after its last '.', if it has one (pathinfo's extension). */
  function Extension(base: string): Option<string> {
    match LastIndexOf(base, '.')
    case None => None
    case Some(j) => Some(base[j + 1..])
  }

  /** basename(name, ".ext"): the suffix is cut unless it is the whole name. */
  function StripSuffix(name: string, suffix: string): string {
    if |suffix| < |name| && name[|name| - |suffix|..] == suffix then name[..|name| - |suffix|] else name
  }

  /**
   * The guessed URL of an image's original thumbnail: the file name with
   * ".thumbnail" put before its extension, in the same directory.
   */
  function ThumbnailGuess(url: string): string {
    var ext := Extension(BaseName(url)).GetOr("");
    var name := StripSuffix(BaseName(url), "." + ext);
    DirName(url) + "/" + name + ".thumbnail." + ext
  }

  /** The position of a `c` with no `c` after it is what LastIndexOf finds. */
  lemma LastIndexOfIs(s: string, c: char, i: nat)
    requires i < |s| && s[i] == c
    requires forall j :: i < j < |s| ==> s[j] != c
    ensures LastIndexOf(s, c) == Some(i)
  {
  }

  lemma {:induction false} SplitAtLast(prefix: string, c: char, rest: string)
    requires forall j :: 0 <= j < |rest| ==> rest[j] != c
    ensures LastIndexOf(prefix + [c] + rest, c) == Some(|prefix|)
    ensures (prefix + [c] + rest)[..|prefix|] == prefix
    ensures (prefix + [c] + rest)[|prefix| + 1..] == rest
  {
    var s := prefix + [c] + rest;
    forall j | |prefix| < j < |s| ensures s[j] != c {
      assert s[j] == rest[j - |prefix| - 1];
    }
    LastIndexOfIs(s, c, |prefix|);
  }

  /** A directory that does not end in '/', a '/' and a non-empty file name split back into the two. */
  lemma {:induction false} PathOfFile(dir: string, base: string)
    requires dir != [] && dir[|dir| - 1] != '/'
    requires base != [] && forall j :: 0 <= j < |base| ==> base[j] != '/'
    ensures BaseName(dir + "/" + base) == base
    ensures DirName(dir + "/" + base) == dir
  {
    var url := dir + "/" + base;
    SplitAtLast(dir, '/', base);
    assert url == dir + ['/'] + base;
    assert url[|url| - 1] == base[|base| - 1];
    assert RTrimSlash(url) == url;
    assert RTrimSlash(dir) == dir;
  }

  /** Repeated slashes before the last component are dropped with it, as PHP's dirname does. */
  lemma DirNameDropsRepeatedSlashes()
    ensures DirName("a//b") == "a"
    ensures DirName("/b") == "/" && DirName("b") == "." && DirName("a/b/") == "a"
  {
    assert RTrimSlash("a//b") == "a//b";
    assert LastIndexOf("a//b", '/') == Some(2) by { LastIndexOfIs("a//b", '/', 2); }
    assert "a//b"[..2] == "a/";
    assert RTrimSlash("a/") == RTrimSlash("a") == "a";
    assert RTrimSlash("/b") == "/b";
    assert LastIndexOf("/b", '/') == Some(0) by { LastIndexOfIs("/b", '/', 0); }
    assert "/b"[..0] == [];
    assert RTrimSlash("b") == "b";
    assert LastIndexOf("b", '/') == None;
    assert RTrimSlash("a/b/") == RTrimSlash("a/b") == "a/b";
    assert LastIndexOf("a/b", '/') == Some(1) by { LastIndexOfIs("a/b", '/', 1); }
    assert "a/b"[..1] == "a";
  }

  lemma {:induction false} NameOfFile(name: string, ext: string)
    requires name != []
    requires forall i :: 0 <= i < |ext| ==> ext[i] != '.'
    ensures Extension(name + "." + ext) == Some(ext)
    ensures StripSuffix(name + "." + ext, "." + ext) == name
  {
    SplitAtLast(name, '.', ext);
    var base := name + "." + ext;
    assert base == name + ['.'] + ext;
    assert base[|base| - |"." + ext|..] == "." + ext;
  }

  lemma FileNameHasNoSlash(name: string, ext: string)
    requires forall i :: 0 <= i < |name| ==> name[i] != '/'
    requires forall i :: 0 <= i < |ext| ==> ext[i] != '/'
    ensures forall j :: 0 <= j < |name + "." + ext| ==> (name + "." + ext)[j] != '/'
  {
    var base := name + "." + ext;
    forall j | 0 <= j < |base| ensures base[j] != '/' {
      if j < |name| {
        assert base[j] == name[j];
      } else if j > |name| {
        assert base[j] == ext[j - |name| - 1];
      }
    }
  }

  /** For an ordinary file URL, the guess inserts ".thumbnail" before the extension and changes nothing else. */
  lemma {:induction false} ThumbnailGuessOfFile(dir: string, name: string, ext: string)
    requires dir != [] && dir[|dir| - 1] != '/'
    requires name != []
    requires forall i :: 0 <= i < |name| ==> name[i] != '/'
    requires forall i :: 0 <= i < |ext| ==> ext[i] != '/' && ext[i] != '.'
    ensures ThumbnailGuess(dir + "/" + name + "." + ext) == dir + "/" + name + ".thumbnail." + ext
  {
    var base := name + "." + ext;
    FileNameHasNoSlash(name, ext);
    PathOfFile(dir, base);
    NameOfFile(name, ext);
    var url := dir + "/" + base;
    AppendAssoc(dir + "/" + name, ".", ext);
    AppendAssoc(dir + "/", name, "." + ext);
    AppendAssoc(name, ".", ext);
    assert Extension(BaseName(url)).GetOr("") == ext;
    assert StripSuffix(BaseName(url), "." + ext) == name;
  }

  lemma AppendAssoc(x: string, y: string, z: string)
    ensures (x + y) + z == x + (y + z)
  {
  }

  /** s contains `from` starting at position i. */
  predicate OccursAt(s: string, from: string, i: nat) {
    i + |from| <= |s| && s[i..i + |from|] == from
  }

  /**
   * The text with every non-overlapping occurrence of `from`, scanning left
   * to right, replaced by `to` (SQL REPLACE); an empty `from` changes nothing.
   */
  function ReplaceAll(s: string, from: string, to: string): string
    decreases |s|
  {
    if from == [] || |s| < |from| then s
    else if s[..|from|] == from then to + ReplaceAll(s[|from|..], from, to)
    else [s[0]] + ReplaceAll(s[1..], from, to)
  }

  /** Text that does not contain `from` is left as it is. */
  lemma {:induction false} ReplaceAllAbsent(s: string, from: string, to: string)
    requires forall i :: 0 <= i <= |s| ==> !OccursAt(s, from, i)
    ensures ReplaceAll(s, from, to) == s
    decreases |s|
  {
    if from != [] && |s| >= |from| {
      assert !OccursAt(s, from, 0);
      assert s[0..|from|] == s[..|from|];
      forall i | 0 <= i <= |s[1..]| ensures !OccursAt(s[1..], from, i) {
        assert !OccursAt(s, from, i + 1);
        if i + |from| <= |s[1..]| {
          assert s[1..][i..i + |from|] == s[i + 1..i + 1 + |from|];
        }
      }
      ReplaceAllAbsent(s[1..], from, to);
      assert s == [s[0]] + s[1..];
    }
  }

  /** Replacing a URL by itself changes nothing. */
  lemma {:induction false} ReplaceAllSelf(s: string, from: string)
    ensures ReplaceAll(s, from, from) == s
    decreases |s|
  {
    if from != [] && |s| >= |from| {
      if s[..|from|] == from {
        ReplaceAllSelf(s[|from|..], from);
        assert s == s[..|from|] + s[|from|..];
      } else {
        ReplaceAllSelf(s[1..], from);
        assert s == [s[0]] + s[1..];
      }
    }
  }

  /** Applies the remap entries of `order`, first to last, to one stored text. */
  function RemapText(s: string, order: seq<string>, table: map<string, string>): string
    requires forall i :: 0 <= i < |order| ==> order[i] in table
  {
    if order == [] then s
    else
      var last := order[|order| - 1];
      ReplaceAll(RemapText(s, order[..|order| - 1], table), last, table[last])
  }

  /** An occurrence at the front is replaced and the scan resumes after it. */
  lemma ReplaceAllHit(f: string, rest: string, t: string)
    requires f != []
    ensures ReplaceAll(f + rest, f, t) == t + ReplaceAll(rest, f, t)
  {
    assert (f + rest)[..|f|] == f;
    assert (f + rest)[|f|..] == rest;
  }

  /** A mismatch at position k means no occurrence starts at the front. */
  lemma ReplaceAllMiss(s: string, f: string, t: string, k: nat)
    requires k < |f| <= |s| && s[k] != f[k]
    ensures ReplaceAll(s, f, t) == [s[0]] + ReplaceAll(s[1..], f, t)
  {
    assert s[..|f|][k] != f[k];
  }

  /** A stretch of text without the first character of `f` is copied unchanged. */
  lemma {:induction false} ReplaceAllSkip(p: string, rest: string, f: string, t: string)
    requires f != [] && f[0] !in p
    ensures ReplaceAll(p + rest, f, t) == p + ReplaceAll(rest, f, t)
    decreases |p|
  {
    if p == [] {
      assert p + rest == rest;
    } else {
      var s := p + rest;
      assert s[0] == p[0] && s[1..] == p[1..] + rest;
      ReplaceAllSkip(p[1..], rest, f, t);
      ReplaceAllFront(s, f, t);
      ConsAppend(p, ReplaceAll(rest, f, t));
    }
  }

  /** A text whose first character is not that of `f` keeps it, and the scan goes on from the next one. */
  lemma ReplaceAllFront(s: string, f: string, t: string)
    requires s != [] && f != [] && s[0] != f[0]
    ensures ReplaceAll(s, f, t) == [s[0]] + ReplaceAll(s[1..], f, t)
  {
    if |s| >= |f| {
      ReplaceAllMiss(s, f, t, 0);
    } else {
      assert s == [s[0]] + s[1..];
    }
  }

  lemma ConsAppend(p: string, x: string)
    requires p != []
    ensures [p[0]] + (p[1..] + x) == p + x
  {
    assert p == [p[0]] + p[1..];
  }

  /** A text shorter than `f` holds no occurrence of it. */
  lemma ReplaceAllShort(s: string, f: string, t: string)
    requires |s| < |f|
    ensures ReplaceAll(s, f, t) == s
  {
  }

  /** Applying a two-entry order is two replacements, first entry first. */
  lemma RemapTwo(s: string, a: string, b: string, table: map<string, string>)
    requires a in table && b in table
    ensures RemapText(s, [a, b], table) == ReplaceAll(ReplaceAll(s, a, table[a]), b, table[b])
  {
    assert [a, b][..1] == [a] && [a][..0] == [];
    assert RemapText(s, [a], table) == ReplaceAll(RemapText(s, [], table), a, table[a]);
  }

  /**
   * An attachment URL `u` and a longer one `u + q` that it is a prefix of,
   * both in one text. Applied longest first, each is rewritten to its own
   * new URL: this is why the remap table is sorted with CmprStrlen.
   * (`k` is a position where the new URL of `u + q` differs from `u`, so
   * the rewritten text does not start a fresh occurrence of `u`.)
   */
  lemma LongestFirstRewritesEachToItsOwnTarget(u: string, q: string, sep: string, nu: string, nr: string, k: nat)
    requires u != [] && q != []
    requires u[0] !in sep && k < |u| && k < |nr| && nr[k] != u[k] && u[0] !in nr[1..]
    ensures RemapText(u + q + sep + u, [u + q, u], map[u := nu, u + q := nr]) == nr + sep + nu
  {
    var table := map[u := nu, u + q := nr];
    assert u + q != u by { assert |u + q| > |u|; }
    assert table[u + q] == nr && table[u] == nu;
    RemapTwo(u + q + sep + u, u + q, u, table);
    LongerFirstStep(u, q, sep, nr);
    ShorterSecondStep(u, sep, nu, nr, k);
  }

  /** The longer URL is rewritten first; the shorter occurrence after it is left for later. */
  lemma LongerFirstStep(u: string, q: string, sep: string, nr: string)
    requires u != [] && q != [] && u[0] !in sep
    ensures ReplaceAll(u + q + sep + u, u + q, nr) == nr + sep + u
  {
    assert (u + q)[0] == u[0];
    assert u + q + sep + u == (u + q) + (sep + u);
    ReplaceAllHit(u + q, sep + u, nr);
    ReplaceAllSkip(sep, u, u + q, nr);
    ReplaceAllShort(u, u + q, nr);
  }

  /** Then the shorter URL is rewritten where it occurs alone, and the new longer URL does not match it. */
  lemma ShorterSecondStep(u: string, sep: string, nu: string, nr: string, k: nat)
    requires u != [] && u[0] !in sep && k < |u| && k < |nr| && nr[k] != u[k] && u[0] !in nr[1..]
    ensures ReplaceAll(nr + sep + u, u, nu) == nr + sep + nu
  {
    var step := nr + sep + u;
    var mid := nr[1..] + sep;
    assert step[k] == nr[k];
    ReplaceAllMiss(step, u, nu, k);
    assert step[1..] == mid + u;
    ReplaceAllSkip(mid, u, u, nu);
    ReplaceAllWhole(u, nu);
    assert step[0] == nr[0];
    HeadTail(nr, sep, nu);
  }

  lemma HeadTail(x: string, y: string, z: string)
    requires x != []
    ensures [x[0]] + ((x[1..] + y) + z) == x + y + z
  {
    var l := [x[0]] + ((x[1..] + y) + z);
    var r := x + y + z;
    assert |l| == |r|;
    forall i | 0 <= i < |l| ensures l[i] == r[i] {
      if i == 0 {
      } else if i < |x| {
        assert l[i] == x[1..][i - 1];
      } else if i < |x| + |y| {
        assert l[i] == y[i - |x|];
      } else {
        assert l[i] == z[i - |x| - |y|];
      }
    }
  }

  /** The URL alone is replaced whole. */
  lemma ReplaceAllWhole(u: string, nu: string)
    requires u != []
    ensures ReplaceAll(u, u, nu) == nu
  {
    assert u[..|u|] == u;
    assert u[|u|..] == [];
    assert nu + [] == nu;
  }

  /** After the shorter URL has been rewritten, the longer one no longer occurs. */
  lemma LongerUrlGone(u: string, q: string, sep: string, nu: string, nr: string, k: nat)
    requires u != [] && u[0] !in q + sep && k < |u| && k < |nu| && nu[k] != u[k] && u[0] !in nu[1..]
    ensures ReplaceAll(nu + q + sep + nu, u + q, nr) == nu + q + sep + nu
  {
    var step := nu + q + sep + nu;
    var f := u + q;
    var mid := nu[1..] + q + sep;
    assert f[0] == u[0] && f[k] == u[k];
    assert step[k] == nu[k];
    if |step| < |f| {
      ReplaceAllShort(step, f, nr);
    } else {
      ReplaceAllMiss(step, f, nr, k);
      assert step[1..] == mid + nu;
      assert f[0] !in mid;
      ReplaceAllSkip(mid, nu, f, nr);
      NoMatchAtAll(nu, f, nr, k);
      HeadTail(nu, q + sep, nu);
      assert mid == nu[1..] + (q + sep);
    }
  }

  /** A text that differs from `f` at k and lacks f's first character after its own first is left alone. */
  lemma NoMatchAtAll(s: string, f: string, t: string, k: nat)
    requires f != [] && k < |f| && k < |s| && s[k] != f[k] && f[0] !in s[1..]
    ensures ReplaceAll(s, f, t) == s
  {
    if |s| < |f| {
      ReplaceAllShort(s, f, t);
    } else {
      ReplaceAllMiss(s, f, t, k);
      ReplaceAllSkip(s[1..], [], f, t);
      assert s[1..] + [] == s[1..];
      assert s == [s[0]] + s[1..];
    }
  }

  /** With the shorter URL first, it is rewritten in both places, including inside the longer URL. */
  lemma ShorterFirstStep(u: string, q: string, sep: string, nu: string)
    requires u != [] && u[0] !in q + sep
    ensures ReplaceAll(u + q + sep + u, u, nu) == nu + q + sep + nu
  {
    var mid := q + sep;
    Regroup(u, q, sep, u);
    ReplaceAllHit(u, mid + u, nu);
    ReplaceAllSkip(mid, u, u, nu);
    ReplaceAllWhole(u, nu);
    Regroup(nu, q, sep, nu);
  }

  lemma Regroup(a: string, b: string, c: string, d: string)
    ensures a + b + c + d == a + ((b + c) + d)
  {
    var l := a + b + c + d;
    var r := a + ((b + c) + d);
    assert |l| == |r|;
    forall i | 0 <= i < |l| ensures l[i] == r[i] {
      if i < |a| {
      } else if i < |a| + |b| {
        assert l[i] == b[i - |a|] && r[i] == b[i - |a|];
      } else if i < |a| + |b| + |c| {
        assert l[i] == c[i - |a| - |b|] && r[i] == c[i - |a| - |b|];
      } else {
        assert l[i] == d[i - |a| - |b| - |c|] && r[i] == d[i - |a| - |b| - |c|];
      }
    }
  }

  /**
   * The same text with the shorter URL applied first: `u` is rewritten
   * inside `u + q` as well, so the longer URL is never rewritten and the
   * text is left pointing at `nu + q`, which no attachment has.
   */
  lemma ShortestFirstCorruptsTheLongerUrl(u: string, q: string, sep: string, nu: string, nr: string, k: nat)
    requires u != [] && q != []
    requires u[0] !in q + sep && k < |u| && k < |nu| && nu[k] != u[k] && u[0] !in nu[1..]
    ensures RemapText(u + q + sep + u, [u, u + q], map[u := nu, u + q := nr]) == nu + q + sep + nu
  {
    var table := map[u := nu, u + q := nr];
    assert u + q != u by { assert |u + q| > |u|; }
    assert table[u + q] == nr && table[u] == nu;
    RemapTwo(u + q + sep + u, u, u + q, table);
    ShorterFirstStep(u, q, sep, nu);
    LongerUrlGone(u, q, sep, nu, nr, k);
  }
}
