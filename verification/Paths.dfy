/** Absolute paths as lists of names below the root, and paths relative to a base.  Symbolic links
    are not part of this model: a path is its own canonical form.  */
module Paths {
  import opened Basics

  predicate IsName(c: string) {
    c != "" && c != "." && c != ".." && '/' !in c
  }

  type AbsPath = p: seq<string> | forall i | 0 <= i < |p| :: IsName(p[i])

  function Parent(p: AbsPath): AbsPath {
    if p == [] then [] else p[..|p| - 1]
  }

  function Joined(p: seq<string>): string {
    if p == [] then "" else "/" + p[0] + Joined(p[1..])
  }

  function Text(p: AbsPath): string {
    if p == [] then "/" else Joined(p)
  }

  /** A test on the text, so that /a/bc has the prefix /a/b. */
  predicate HasPrefix(p: AbsPath, prefix: AbsPath) {
    Text(prefix) <= Text(p)
  }

  // ---------- relative paths ----------

  function Common(p: AbsPath, q: AbsPath): (n: nat)
    ensures n <= |p| && n <= |q| && p[..n] == q[..n]
    ensures n < |p| && n < |q| ==> p[n] != q[n]
  {
    if p == [] || q == [] || p[0] != q[0] then 0
    else
      assert p == [p[0]] + p[1..] && q == [q[0]] + q[1..];
      1 + Common(p[1..], q[1..])
  }

  function Ups(n: nat): (r: seq<string>)
    ensures |r| == n && forall i | 0 <= i < n :: r[i] == ".."
  {
    seq(n, i => "..")
  }

  /** The components of the path from base to p; "." when they are the same. */
  function Relative(p: AbsPath, base: AbsPath): (r: seq<string>)
    ensures IsRelative(r)
  {
    var n := Common(p, base);
    if n == |p| && n == |base| then ["."] else Ups(|base| - n) + p[n..]
  }

  predicate IsRelative(r: seq<string>) {
    r != [] && forall i | 0 <= i < |r| :: r[i] != "" && '/' !in r[i]
  }

  function RelativeText(r: seq<string>): string {
    if r == [] then "" else if |r| == 1 then r[0] else r[0] + "/" + RelativeText(r[1..])
  }

  function Follow(p: AbsPath, c: string): AbsPath {
    if IsName(c) then p + [c] else if c == ".." then Parent(p) else p
  }

  function Absolute(base: AbsPath, r: seq<string>): AbsPath
    decreases |r|
  {
    if r == [] then base else Absolute(Follow(base, r[0]), r[1..])
  }

  lemma FollowUp(base: AbsPath)
    ensures Follow(base, "..") == Parent(base)
  {
  }

  lemma {:induction false} FollowUps(base: AbsPath, n: nat, rest: seq<string>)
    requires n <= |base|
    ensures Absolute(base, Ups(n) + rest) == Absolute(base[..|base| - n], rest)
  {
    hide IsName, Follow;
    if n == 0 {
      assert Ups(0) + rest == rest && base[..|base|] == base;
    } else {
      var r := Ups(n) + rest;
      FollowUps(Parent(base), n - 1, rest);
      assert r[0] == ".." && r[1..] == Ups(n - 1) + rest;
      FollowUp(base);
      assert Parent(base)[..|base| - 1 - (n - 1)] == base[..|base| - n];
    }
  }

  lemma {:induction false} FollowNames(base: AbsPath, names: AbsPath)
    ensures Absolute(base, names) == base + names
    decreases |names|
  {
    if names == [] {
      assert base + names == base;
    } else {
      assert IsName(names[0]);
      assert Follow(base, names[0]) == base + [names[0]];
      FollowNames(base + [names[0]], names[1..]);
      assert base + names == base + [names[0]] + names[1..];
    }
  }

  lemma RelativeParts(p: AbsPath, base: AbsPath)
    requires var n := Common(p, base); !(n == |p| && n == |base|)
    ensures var n := Common(p, base); Relative(p, base) == Ups(|base| - n) + p[n..]
  {
    hide Common, IsName;
  }

  /** Following the relative path from its base leads back to the path. */
  lemma RelativeResolves(p: AbsPath, base: AbsPath)
    ensures Absolute(base, Relative(p, base)) == p
  {
    hide Absolute, IsName, Common, Ups;
    var n := Common(p, base);
    if n == |p| && n == |base| {
      assert p == p[..n] == base[..n] == base;
      FollowDot(base);
    } else {
      hide Relative;
      RelativeParts(p, base);
      FollowUps(base, |base| - n, p[n..]);
      FollowNames(base[..n], p[n..]);
      assert p[..n] + p[n..] == p;
    }
  }

  lemma FollowDot(base: AbsPath)
    ensures Absolute(base, ["."]) == base
  {
    assert ["."][1..] == [];
    assert Absolute(base, []) == base;
  }

  function FirstSlash(t: string): (n: nat) {
    if t == "" || t[0] == '/' then 0 else 1 + FirstSlash(t[1..])
  }

  lemma {:induction false} FirstSlashAt(t: string, n: nat)
    requires n <= |t| && '/' !in t[..n] && (n == |t| || t[n] == '/')
    ensures FirstSlash(t) == n
  {
    if n > 0 {
      assert t[0] == t[..n][0];
      assert t[1..][..n - 1] == t[..n][1..];
      FirstSlashAt(t[1..], n - 1);
    }
  }

  /** Two lists of components are never written the same way. */
  lemma {:induction false} RelativeTextInjective(r: seq<string>, s: seq<string>)
    requires IsRelative(r) && IsRelative(s) && RelativeText(r) == RelativeText(s)
    ensures r == s
  {
    FirstName(r);
    FirstName(s);
    var t := RelativeText(r);
    FirstSlashAt(t, |r[0]|);
    FirstSlashAt(t, |s[0]|);
    if |r| > 1 {
      RelativeTextInjective(r[1..], s[1..]);
      assert r == [r[0]] + r[1..] && s == [s[0]] + s[1..];
    }
  }

  lemma FirstName(r: seq<string>)
    requires IsRelative(r)
    ensures |r[0]| <= |RelativeText(r)| && RelativeText(r)[..|r[0]|] == r[0]
    ensures |r| == 1 <==> |RelativeText(r)| == |r[0]|
    ensures |r| > 1 ==> RelativeText(r)[|r[0]|] == '/' && RelativeText(r)[|r[0]| + 1..] == RelativeText(r[1..])
  {
  }

  // ---------- the textual prefix test ----------

  lemma FirstOf(p: AbsPath)
    requires p != []
    ensures Joined(p) == "/" + (p[0] + Joined(p[1..])) && '/' !in p[0]
    ensures Joined(p[1..]) != "" ==> Joined(p[1..])[0] == '/'
    ensures Joined(p[1..]) == "" <==> |p| == 1
  {
    hide IsName, Joined;
    NoSlash(p);
    JoinedStep(p);
    Associative("/", p[0], Joined(p[1..]));
    JoinedStarts(p[1..]);
  }

  lemma NoSlash(p: AbsPath)
    requires p != []
    ensures '/' !in p[0]
  {
    assert IsName(p[0]);
  }

  lemma JoinedStep(p: AbsPath)
    requires p != []
    ensures Joined(p) == "/" + p[0] + Joined(p[1..])
  {
    hide IsName;
  }

  lemma JoinedStarts(p: AbsPath)
    ensures if p == [] then Joined(p) == "" else Joined(p) != "" && Joined(p)[0] == '/'
  {
    hide IsName;
  }

  /** The last name of q continues in p's name at that place. */
  predicate Continues(p: AbsPath, q: AbsPath) {
    var n := |q|;
    0 < n <= |p| && p[..n - 1] == q[..n - 1] && q[n - 1] < p[n - 1]
  }

  lemma ContinuesFrom(p: AbsPath, q: AbsPath)
    requires |p| > 0 && |q| > 1 && p[0] == q[0]
    ensures Continues(p, q) <==> Continues(p[1..], q[1..])
    ensures q <= p <==> q[1..] <= p[1..]
  {
    assert p == [p[0]] + p[1..] && q == [q[0]] + q[1..];
    var n := |q|;
    if n <= |p| {
      assert p[..n - 1] == [p[0]] + p[1..][..n - 2] && q[..n - 1] == [q[0]] + q[1..][..n - 2];
    }
  }

  lemma NamePrefix(c: string, d: string, tail: string)
    requires '/' !in c && '/' !in d && (tail == "" || tail[0] == '/')
    ensures c <= d + tail <==> c <= d
  {
    if |d| < |c| {
      assert c[|d|] in c;
      assert tail != "" ==> (d + tail)[|d|] == '/';
    }
  }

  lemma SameFirstName(c: string, rest: string, d: string, tail: string)
    requires '/' !in c && '/' !in d && rest != "" && rest[0] == '/' && (tail == "" || tail[0] == '/')
    ensures c + rest <= d + tail <==> c == d && rest <= tail
  {
    if c + rest <= d + tail {
      var t := d + tail;
      assert t[..|c|] == c && t[..|d|] == d && t[|c|] == (c + rest)[|c|] == '/';
      FirstSlashAt(t, |c|);
      FirstSlashAt(t, |d|);
      assert rest == (c + rest)[|c|..] && tail == t[|d|..];
    }
  }

  lemma {:induction false} JoinedPrefix(p: AbsPath, q: AbsPath)
    requires q != []
    ensures Joined(q) <= Joined(p) <==> q <= p || Continues(p, q)
    decreases |q|
  {
    hide Joined, Continues, FirstSlash;
    FirstOf(q);
    if p == [] {
      NothingJoined(p, q);
    } else {
      FirstOf(p);
      var s, t := q[0] + Joined(q[1..]), p[0] + Joined(p[1..]);
      SlashFirst(s, t);
      if |q| == 1 {
        NamePrefix(q[0], p[0], Joined(p[1..]));
        assert s == q[0];
        OneName(p, q);
      } else {
        SameFirstName(q[0], Joined(q[1..]), p[0], Joined(p[1..]));
        if p[0] == q[0] {
          JoinedPrefix(p[1..], q[1..]);
          ContinuesFrom(p, q);
        } else {
          OtherFirst(p, q);
        }
      }
    }
  }

  lemma SlashFirst(s: string, t: string)
    ensures "/" + s <= "/" + t <==> s <= t
  {
    assert ("/" + s)[1..] == s && ("/" + t)[1..] == t;
  }

  lemma NothingJoined(p: AbsPath, q: AbsPath)
    requires p == [] && q != []
    ensures !(Joined(q) <= Joined(p)) && !(q <= p) && !Continues(p, q)
  {
  }

  lemma OneName(p: AbsPath, q: AbsPath)
    requires p != [] && |q| == 1
    ensures q[0] <= p[0] <==> q <= p || Continues(p, q)
  {
    var c, d := q[0], p[0];
    assert p[..0] == q[..0] && q == [c];
    assert q <= p <==> c == d;
    ProperOrSame(c, d);
  }

  lemma ProperOrSame(c: string, d: string)
    ensures c <= d <==> c < d || c == d
  {
    if c <= d && |c| == |d| {
      assert c == d;
    }
  }

  lemma OtherFirst(p: AbsPath, q: AbsPath)
    requires p != [] && |q| > 1 && p[0] != q[0]
    ensures !(q <= p) && !Continues(p, q)
  {
    if |q| <= |p| {
      assert p[..|q| - 1][0] == p[0] && q[..|q| - 1][0] == q[0];
    }
  }

  /** The test accepts the paths at or below the prefix, and besides exactly those whose name at
      the last place of the prefix continues its last name. */
  lemma HasPrefixExactly(p: AbsPath, q: AbsPath)
    ensures HasPrefix(p, q) <==> q <= p || Continues(p, q)
  {
    if q == [] {
      assert Text(p)[0] == '/';
    } else {
      JoinedPrefix(p, q);
      if p == [] {
        FirstOf(q);
        assert IsName(q[0]);
      }
    }
  }

  lemma {:induction false} CommonAll(p: AbsPath, q: AbsPath)
    ensures Common(p, q) == |q| <==> q <= p
  {
    if p != [] && q != [] && p[0] == q[0] {
      CommonAll(p[1..], q[1..]);
      assert p == [p[0]] + p[1..] && q == [q[0]] + q[1..];
    }
  }

  /** A relative path starts with a step to the parent exactly when it leaves the base. */
  lemma RelativeLeavesBase(p: AbsPath, base: AbsPath)
    ensures Relative(p, base)[0] == ".." <==> !(base <= p)
  {
    hide Common;
    CommonAll(p, base);
    var n := Common(p, base);
    if n == |base| && n < |p| {
      assert Relative(p, base)[0] == p[n] && IsName(p[n]);
    }
  }
}
