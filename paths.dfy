/** Slash-separated path helpers: segments, slash runs, whitespace trimming and token splitting. */
module Paths {
  import opened Strings

  /** The part after the last '/', empty when the path ends with '/'. */
  function LastSegment(s: string): (seg: string)
    ensures |seg| <= |s| && s[|s| - |seg|..] == seg && '/' !in seg
    ensures |seg| < |s| ==> s[|s| - |seg| - 1] == '/'
  {
    if s == [] || s[|s| - 1] == '/' then [] else LastSegment(s[..|s| - 1]) + [s[|s| - 1]]
  }

  /** A path without a '/' is its own last segment. */
  lemma {:induction false} LastSegmentOfSegment(s: string)
    requires '/' !in s
    ensures LastSegment(s) == s
  {
    if s != [] {
      LastSegmentOfSegment(s[..|s| - 1]);
      assert s == s[..|s| - 1] + [s[|s| - 1]];
    }
  }

  /** The last segment is what follows the last '/'. */
  lemma {:induction false} LastSegmentAfterSlash(dir: string, seg: string)
    requires '/' !in seg
    ensures LastSegment(dir + "/" + seg) == seg
  {
    var s := dir + "/" + seg;
    if seg != [] {
      var init := seg[..|seg| - 1];
      assert s[..|s| - 1] == dir + "/" + init;
      LastSegmentAfterSlash(dir, init);
      assert seg == init + [seg[|seg| - 1]];
    }
  }

  /** The path without its trailing run of slashes. */
  function TrimTrailingSlashes(s: string): (t: string)
    ensures t <= s && (t == [] || t[|t| - 1] != '/')
    ensures forall i | |t| <= i < |s| :: s[i] == '/'
  {
    if s != [] && s[|s| - 1] == '/' then TrimTrailingSlashes(s[..|s| - 1]) else s
  }

  lemma {:induction false} TrimTrailingSlashesOf(dir: string, k: nat)
    requires dir == [] || dir[|dir| - 1] != '/'
    ensures TrimTrailingSlashes(dir + Slashes(k)) == dir
  {
    if k > 0 {
      DropLastSlash(dir, k);
      TrimTrailingSlashesOf(dir, k - 1);
    } else {
      assert dir + Slashes(0) == dir;
    }
  }

  /** `<dir><k slashes>` ends in a slash, and without it is `<dir><k - 1 slashes>`. */
  lemma DropLastSlash(dir: string, k: nat)
    requires k > 0
    ensures dir + Slashes(k) == dir + Slashes(k - 1) + "/"
    ensures var s := dir + Slashes(k); s != [] && s[|s| - 1] == '/' && s[..|s| - 1] == dir + Slashes(k - 1)
  {
    assert dir + Slashes(k) == (dir + Slashes(k - 1)) + "/";
  }

  /** A run of k slashes. */
  function Slashes(k: nat): (s: string)
    ensures |s| == k && forall i | 0 <= i < k :: s[i] == '/'
  {
    if k == 0 then [] else Slashes(k - 1) + "/"
  }

  /** A run of k + 1 slashes is a slash followed by a run of k. */
  lemma SlashesCons(k: nat)
    ensures Slashes(k + 1) == "/" + Slashes(k)
  {
  }

  /** In `<dir><slashes><file>` the file is the last segment. */
  lemma SplitLastSegment(dir: string, k: nat, file: string)
    requires k >= 1 && '/' !in file
    ensures LastSegment(dir + Slashes(k) + file) == file
  {
    var fewer := dir + Slashes(k - 1);
    DropLastSlash(dir, k);
    LastSegmentAfterSlash(fewer, file);
  }

  /** Contains two adjacent slashes. */
  predicate HasDoubleSlash(s: string) {
    exists i | 0 <= i < |s| - 1 :: s[i] == '/' && s[i + 1] == '/'
  }

  /** `replaceAll("//+", "/")`: every run of two or more slashes becomes one slash. */
  function CollapseSlashes(s: string): (r: string)
    ensures !HasDoubleSlash(r)
    ensures |r| <= |s|
    ensures s != [] ==> r != [] && r[0] == s[0]
    decreases |s|
  {
    if |s| < 2 then s
    else if s[0] == '/' && s[1] == '/' then CollapseSlashes(s[1..])
    else [s[0]] + CollapseSlashes(s[1..])
  }

  /** A run of k + 1 slashes anywhere collapses exactly as a single slash does. */
  lemma {:induction false} CollapseSlashRun(a: string, k: nat, b: string)
    ensures CollapseSlashes(a + Slashes(k + 1) + b) == CollapseSlashes(a + "/" + b)
    decreases |a|, k
  {
    SlashesCons(k);
    if a == [] {
      if k > 0 {
        SlashesCons(k - 1);
        var s := a + Slashes(k + 1) + b;
        assert s == "/" + ("/" + Slashes(k - 1) + b);
        assert s[1..] == a + Slashes(k) + b;
        CollapseSlashRun(a, k - 1, b);
      }
    } else {
      var s := a + Slashes(k + 1) + b;
      var t := a + "/" + b;
      assert s == [a[0]] + (a[1..] + Slashes(k + 1) + b);
      assert t == [a[0]] + (a[1..] + "/" + b);
      assert s[1] == t[1];
      CollapseSlashRun(a[1..], k, b);
    }
  }

  /** A path without double slashes is left alone. */
  lemma {:induction false} CollapseSlashesNoop(s: string)
    requires !HasDoubleSlash(s)
    ensures CollapseSlashes(s) == s
    decreases |s|
  {
    if |s| >= 2 {
      assert !(s[0] == '/' && s[1] == '/');
      SubstringKeepsNoDoubleSlash(s, 1, |s|);
      CollapseSlashesNoop(s[1..]);
      assert s == [s[0]] + s[1..];
    }
  }

  /** Java's whitespace test for `trim`: every character up to and including U+0020. */
  predicate IsTrimmed(c: char) { c <= ' ' }


  function TrimStart(s: string): (r: string)
    ensures |r| <= |s| && r == s[|s| - |r|..]
    ensures r == [] || !IsTrimmed(r[0])
  {
    if s != [] && IsTrimmed(s[0]) then TrimStart(s[1..]) else s
  }

  function TrimEnd(s: string): (r: string)
    ensures r <= s
    ensures r == [] || !IsTrimmed(r[|r| - 1])
  {
    if s != [] && IsTrimmed(s[|s| - 1]) then TrimEnd(s[..|s| - 1]) else s
  }

  /** Only trimmable characters are cut from the start. */
  lemma {:induction false} TrimStartCutsTrimmable(s: string)
    ensures forall i | 0 <= i < |s| - |TrimStart(s)| :: IsTrimmed(s[i])
    decreases |s|
  {
    if s != [] && IsTrimmed(s[0]) {
      TrimStartCutsTrimmable(s[1..]);
      assert forall i | 1 <= i < |s| :: s[i] == s[1..][i - 1];
    }
  }

  /** Only trimmable characters are cut from the end. */
  lemma {:induction false} TrimEndCutsTrimmable(s: string)
    ensures forall i | |TrimEnd(s)| <= i < |s| :: IsTrimmed(s[i])
    decreases |s|
  {
    if s != [] && IsTrimmed(s[|s| - 1]) {
      TrimEndCutsTrimmable(s[..|s| - 1]);
    }
  }

  /** `String.trim`: drop leading and trailing characters up to U+0020; the inside is a substring. */
  function Trim(s: string): (r: string)
    ensures |r| <= |s|
    ensures r == [] || (!IsTrimmed(r[0]) && !IsTrimmed(r[|r| - 1]))
  {
    TrimEnd(TrimStart(s))
  }

  /** `trim` keeps the inside of s: the infix that starts after the leading trimmable characters. */
  lemma TrimInside(s: string)
    ensures var lead := |s| - |TrimStart(s)|;
      lead + |Trim(s)| <= |s| && Trim(s) == s[lead..lead + |Trim(s)|]
  {
    var t := TrimStart(s);
    var r := TrimEnd(t);
    assert Trim(s) == r;
    PrefixOfSuffix(s, t, r);
  }

  /** A prefix r of the suffix t of s is the infix of s that starts where t does. */
  lemma PrefixOfSuffix(s: string, t: string, r: string)
    requires |t| <= |s| && t == s[|s| - |t|..] && r <= t
    ensures |s| - |t| + |r| <= |s| && r == s[|s| - |t|..|s| - |t| + |r|]
  {
    assert r == t[..|r|];
    assert s[|s| - |t|..][..|r|] == s[|s| - |t|..|s| - |t| + |r|];
  }

  /** Everything `trim` cuts, before and after the kept inside, is trimmable. */
  lemma TrimCutsOnlyTrimmable(s: string)
    ensures var lead := |s| - |TrimStart(s)|;
      lead + |Trim(s)| <= |s| &&
      (forall i | 0 <= i < lead :: IsTrimmed(s[i])) &&
      (forall i | lead + |Trim(s)| <= i < |s| :: IsTrimmed(s[i]))
  {
    var t := TrimStart(s);
    var r := TrimEnd(t);
    assert Trim(s) == r;
    TrimStartCutsTrimmable(s);
    TrimEndCutsTrimmable(t);
    TrimmedTail(s, t, |r|);
  }

  /** What follows position n in the suffix t of s is what follows |s| - |t| + n in s. */
  lemma TrimmedTail(s: string, t: string, n: nat)
    requires |t| <= |s| && t == s[|s| - |t|..] && n <= |t|
    requires forall i | n <= i < |t| :: IsTrimmed(t[i])
    ensures forall i | |s| - |t| + n <= i < |s| :: IsTrimmed(s[i])
  {
    var lead := |s| - |t|;
    forall i | lead + n <= i < |s|
      ensures IsTrimmed(s[i])
    {
      assert s[i] == t[i - lead];
    }
  }

  /** Trimming both ends keeps a substring, so it creates no double slash. */
  lemma TrimKeepsNoDoubleSlash(s: string)
    ensures !HasDoubleSlash(s) ==> !HasDoubleSlash(Trim(s))
  {
    if !HasDoubleSlash(s) {
      var t := TrimStart(s);
      SubstringKeepsNoDoubleSlash(s, |s| - |t|, |s|);
      var r := TrimEnd(t);
      assert r == t[..|r|];
      SubstringKeepsNoDoubleSlash(t, 0, |r|);
    }
  }

  lemma {:induction false} TrimNoop(s: string)
    requires s == [] || (!IsTrimmed(s[0]) && !IsTrimmed(s[|s| - 1]))
    ensures Trim(s) == s
  {
    assert TrimStart(s) == s;
    assert TrimEnd(s) == s;
  }

  /** Taking a substring cannot create a double slash. */
  lemma SubstringKeepsNoDoubleSlash(s: string, i: nat, j: nat)
    requires i <= j <= |s| && !HasDoubleSlash(s)
    ensures !HasDoubleSlash(s[i..j])
  {
    forall k | 0 <= k < |s[i..j]| - 1 ensures !(s[i..j][k] == '/' && s[i..j][k + 1] == '/') {
      assert s[i..j][k] == s[i + k] && s[i..j][k + 1] == s[i + k + 1];
    }
  }

  /** `StringUtils.split(s, "/")`: the non-empty slash-free tokens, in order. */
  function Tokens(s: string): (ts: seq<string>)
    ensures forall i | 0 <= i < |ts| :: ts[i] != [] && '/' !in ts[i]
    decreases |s|
  {
    if s == [] then []
    else
      var seg := LastSegment(s);
      if seg == [] then Tokens(s[..|s| - 1])
      else Tokens(s[..|s| - |seg|]) + [seg]
  }

  lemma {:induction false} TokensOfSegment(s: string)
    requires s != [] && '/' !in s
    ensures Tokens(s) == [s]
  {
    LastSegmentOfSegment(s);
    assert s[..0] == [];
  }

  /** Appending a slash and a non-empty slash-free segment appends one token. */
  lemma TokensSnoc(s: string, seg: string)
    requires seg != [] && '/' !in seg
    ensures Tokens(s + "/" + seg) == Tokens(s) + [seg]
  {
    var t := s + "/" + seg;
    LastSegmentAfterSlash(s, seg);
    assert t[..|t| - |seg|] == s + "/";
    assert (s + "/")[..|s|] == s;
  }

  /** Trailing slashes add no token. */
  lemma TokensTrailingSlashes(s: string, k: nat)
    ensures Tokens(s + Slashes(k)) == Tokens(s)
  {
    TokensSlashTail(s, Slashes(k));
  }

  lemma {:induction false} TokensSlashTail(s: string, tail: string)
    requires forall i | 0 <= i < |tail| :: tail[i] == '/'
    ensures Tokens(s + tail) == Tokens(s)
    decreases |tail|
  {
    if tail == [] {
      assert s + tail == s;
    } else {
      var t := s + tail;
      var shorter := tail[..|tail| - 1];
      assert t[..|t| - 1] == s + shorter;
      TokensDropSlash(t);
      TokensSlashTail(s, shorter);
    }
  }

  /** A slash at the end adds no token. */
  lemma TokensDropSlash(t: string)
    requires t != [] && t[|t| - 1] == '/'
    ensures Tokens(t) == Tokens(t[..|t| - 1])
  {
    assert LastSegment(t) == [];
  }

  /** A run of one or more slashes followed by a non-empty slash-free segment adds that one token. */
  lemma TokensSlashRun(s: string, k: nat, seg: string)
    requires seg != [] && '/' !in seg
    ensures Tokens(s + Slashes(k + 1) + seg) == Tokens(s) + [seg]
  {
    var t := s + Slashes(k + 1) + seg;
    SplitLastSegment(s, k + 1, seg);
    assert t[..|t| - |seg|] == s + Slashes(k + 1);
    TokensTrailingSlashes(s, k + 1);
  }

  /** Splitting the slash-joined list of non-empty slash-free tokens gives the list back. */
  lemma {:induction false} TokensOfJoin(ts: seq<string>)
    requires forall i | 0 <= i < |ts| :: ts[i] != [] && '/' !in ts[i]
    ensures Tokens(Join(ts, '/')) == ts
  {
    if |ts| == 1 {
      TokensOfSegment(ts[0]);
    } else if |ts| >= 2 {
      var n := |ts| - 1;
      TokensOfJoin(ts[..n]);
      TokensSnoc(Join(ts[..n], '/'), ts[n]);
      assert ts == ts[..n] + [ts[n]];
    }
  }

  /** Two non-empty slash-free parts joined by a slash split back into exactly those two. */
  lemma TokensOfPair(a: string, b: string)
    requires a != [] && '/' !in a && b != [] && '/' !in b
    ensures Tokens(a + "/" + b) == [a, b]
  {
    TokensSnoc(a, b);
    TokensOfSegment(a);
  }
}
