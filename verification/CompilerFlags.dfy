/** Editing one compile command in place so that the parser can use it.  */
module CompilerFlags {
  import opened Basics

  const BARE_SKIPPED: set<string> :=
    {"-c", "-MD", "-MMD", "-MP", "-rdynamic", "--fcolor-diagnostics", "-Wno-unused-but-set-variable"}

  const SKIPPED_WITH_ARGUMENT: set<string> := {"-MF", "-MQ", "-MT", "-o", "--serialize-diagnostics"}

  /** How many arguments go with a flag of the skip table. */
  function SkipArity(flag: string): (n: Option<nat>)
    ensures n.Some? ==> n.value <= 1
  {
    if flag in BARE_SKIPPED then Some(0) else if flag in SKIPPED_WITH_ARGUMENT then Some(1) else None
  }

  predicate TakesArgument(flag: string) {
    SkipArity(flag) == Some(1)
  }

  predicate IsSource(flag: string, filename: string) {
    flag != "" && flag[0] == '/' && flag == filename
  }

  // ---------- the recursive filter ----------

  /** No string up to the first one without a dash is empty. */
  predicate LeadingReadable(s: seq<string>) {
    s != [] ==> s[0] != "" && (s[0][0] == '-' ==> LeadingReadable(s[1..]))
  }

  function DropLeadingFlags(s: seq<string>): seq<string>
    requires LeadingReadable(s)
  {
    if s != [] && s[0][0] == '-' then DropLeadingFlags(s[1..]) else s
  }

  /** Every skipped flag that takes an argument has one. */
  predicate ArgumentsPresent(s: seq<string>) {
    if s == [] then true
    else if TakesArgument(s[0]) then |s| >= 2 && ArgumentsPresent(s[2..])
    else ArgumentsPresent(s[1..])
  }

  /** No string is empty, except that a swallowed argument may be. */
  predicate HeadsReadable(s: seq<string>) {
    if s == [] then true
    else if TakesArgument(s[0]) then |s| < 2 || HeadsReadable(s[2..])
    else s[0] != "" && HeadsReadable(s[1..])
  }

  function Filtered(s: seq<string>, filename: string): seq<string>
    requires ArgumentsPresent(s)
  {
    if s == [] then []
    else if TakesArgument(s[0]) then Filtered(s[2..], filename)
    else if SkipArity(s[0]).Some? || IsSource(s[0], filename) then Filtered(s[1..], filename)
    else [s[0]] + Filtered(s[1..], filename)
  }

  /** What the caller of the editor owes it: erasing past the end of a list is not defined, nor is
      the first character of an empty string that it looks at. */
  predicate Editable(s: seq<string>) {
    && LeadingReadable(s)
    && var command := DropLeadingFlags(s);
      command != [] ==> ArgumentsPresent(command[1..]) && HeadsReadable(command[1..])
  }

  function Pruned(s: seq<string>, filename: string, isCpp: string -> bool): seq<string>
    requires Editable(s)
  {
    var command := DropLeadingFlags(s);
    if command == [] then []
    else (if isCpp(command[0]) then ["-x", "c++"] else []) + Filtered(command[1..], filename)
  }

  // ---------- which positions survive ----------

  /** Position k is read as a flag of its own rather than swallowed by the flag before it. */
  predicate IsHead(s: seq<string>, k: nat)
    requires k < |s|
  {
    k == 0 || !(TakesArgument(s[k - 1]) && IsHead(s, k - 1))
  }

  predicate Survives(s: seq<string>, filename: string, k: int) {
    0 <= k < |s| && IsHead(s, k) && SkipArity(s[k]).None? && !IsSource(s[k], filename)
  }

  /** An increasing list of exactly the surviving positions. */
  ghost predicate Enumerates(ks: seq<int>, s: seq<string>, filename: string) {
    && (forall i, j | 0 <= i < j < |ks| :: ks[i] < ks[j])
    && (forall k :: k in ks <==> Survives(s, filename, k))
  }

  ghost predicate Selects(r: seq<string>, s: seq<string>, ks: seq<int>) {
    && |r| == |ks|
    && forall j | 0 <= j < |ks| :: 0 <= ks[j] < |s| && r[j] == s[ks[j]]
  }

  function Shifted(ks: seq<int>, n: int): (r: seq<int>)
    ensures |r| == |ks| && forall j | 0 <= j < |ks| :: r[j] == ks[j] + n
  {
    seq(|ks|, j requires 0 <= j < |ks| => ks[j] + n)
  }

  lemma ShiftedIn(ks: seq<int>, n: int, k: int)
    ensures k in Shifted(ks, n) <==> k - n in ks
  {
    if k - n in ks {
      var j :| 0 <= j < |ks| && ks[j] == k - n;
      assert Shifted(ks, n)[j] == k;
    }
  }

  lemma {:induction false} HeadsAfter(s: seq<string>, n: nat, k: nat)
    requires n <= k < |s|
    requires n == 0 || !(TakesArgument(s[n - 1]) && IsHead(s, n - 1))
    ensures IsHead(s, k) == IsHead(s[n..], k - n)
  {
    if k > n {
      HeadsAfter(s, n, k - 1);
    }
  }

  lemma SurvivesAfter(s: seq<string>, filename: string, n: nat, k: int)
    requires n <= |s| && (n == 0 || !(TakesArgument(s[n - 1]) && IsHead(s, n - 1)))
    ensures k >= n ==> Survives(s, filename, k) == Survives(s[n..], filename, k - n)
  {
    if n <= k < |s| {
      HeadsAfter(s, n, k);
    }
  }

  /** The positions of the tail, moved behind the first n positions of which first survive. */
  lemma EnumeratesFrom(s: seq<string>, filename: string, n: nat, ks: seq<int>, first: seq<int>) returns (all: seq<int>)
    requires 0 < n <= |s| && !(TakesArgument(s[n - 1]) && IsHead(s, n - 1))
    requires Enumerates(ks, s[n..], filename)
    requires first == [] || first == [0]
    requires forall k | 0 <= k < n :: Survives(s, filename, k) <==> k in first
    ensures all == first + Shifted(ks, n) && Enumerates(all, s, filename)
  {
    all := first + Shifted(ks, n);
    forall k ensures k in all <==> Survives(s, filename, k) {
      ShiftedIn(ks, n, k);
      SurvivesAfter(s, filename, n, k);
      assert k in all <==> k in first || k in Shifted(ks, n);
      if k < n {
        assert k - n !in ks;
      }
    }
    forall j | 0 <= j < |ks| ensures ks[j] >= 0 {
      assert ks[j] in ks;
    }
  }

  lemma SelectsFrom(r: seq<string>, s: seq<string>, n: nat, ks: seq<int>, first: seq<int>)
    requires 0 < n <= |s| && Selects(r, s[n..], ks) && (first == [] || first == [0])
    ensures Selects((if first == [] then [] else [s[0]]) + r, s, first + Shifted(ks, n))
  {
  }

  lemma NothingSelected(s: seq<string>)
    requires s == []
    ensures Selects([], s, [])
  {
  }

  lemma ArgumentSwallowed(s: seq<string>, filename: string)
    requires |s| >= 2 && TakesArgument(s[0])
    ensures IsHead(s, 0) && !IsHead(s, 1) && !Survives(s, filename, 0) && !Survives(s, filename, 1)
  {
  }

  /** The filter keeps exactly the surviving positions, in order. */
  lemma {:induction false} FilterSelects(s: seq<string>, filename: string) returns (ks: seq<int>)
    requires ArgumentsPresent(s)
    ensures Enumerates(ks, s, filename) && Selects(Filtered(s, filename), s, ks)
  {
    hide Selects, Shifted;
    if s == [] {
      ks := [];
      NothingSelected(s);
    } else if TakesArgument(s[0]) {
      ks := FilterSelects(s[2..], filename);
      SelectsFrom(Filtered(s[2..], filename), s, 2, ks, []);
      ArgumentSwallowed(s, filename);
      ks := EnumeratesFrom(s, filename, 2, ks, []);
      assert [] + Filtered(s[2..], filename) == Filtered(s[2..], filename);
    } else {
      var first := if Survives(s, filename, 0) then [0] else [];
      ks := FilterSelects(s[1..], filename);
      SelectsFrom(Filtered(s[1..], filename), s, 1, ks, first);
      ks := EnumeratesFrom(s, filename, 1, ks, first);
      assert [] + Filtered(s[1..], filename) == Filtered(s[1..], filename);
    }
  }

  /** The editor never erases past the end, exactly when the last flag is not one that still wants
      an argument. */
  lemma {:induction false} ArgumentsPresentExactly(s: seq<string>)
    ensures ArgumentsPresent(s) <==> s == [] || !(TakesArgument(s[|s| - 1]) && IsHead(s, |s| - 1))
  {
    if s == [] {
    } else if TakesArgument(s[0]) {
      if |s| >= 3 {
        assert IsHead(s, 0) && !IsHead(s, 1);
        ArgumentsPresentExactly(s[2..]);
        HeadsAfter(s, 2, |s| - 1);
      } else if |s| == 2 {
        assert IsHead(s, 0) && !IsHead(s, 1);
      }
    } else if |s| >= 2 {
      ArgumentsPresentExactly(s[1..]);
      HeadsAfter(s, 1, |s| - 1);
    }
  }

  /** An empty string is harmful exactly where it is read as a flag of its own. */
  lemma {:induction false} HeadsReadableExactly(s: seq<string>)
    ensures HeadsReadable(s) <==> forall k | 0 <= k < |s| && IsHead(s, k) :: s[k] != ""
  {
    if s != [] {
      var n := if TakesArgument(s[0]) then 2 else 1;
      assert IsHead(s, 0) && (n == 2 && |s| > 1 ==> !IsHead(s, 1));
      if n < |s| {
        HeadsReadableExactly(s[n..]);
        forall k | n <= k < |s| ensures IsHead(s, k) == IsHead(s[n..], k - n) {
          HeadsAfter(s, n, k);
        }
        forall k | 0 <= k < |s| - n ensures s[n..][k] == s[k + n] && IsHead(s[n..], k) == IsHead(s, k + n) {
        }
      }
    }
  }

  predicate IsClean(s: seq<string>, filename: string) {
    forall j | 0 <= j < |s| :: SkipArity(s[j]).None? && !IsSource(s[j], filename)
  }

  lemma {:induction false} FilteredIsClean(s: seq<string>, filename: string)
    requires ArgumentsPresent(s)
    ensures IsClean(Filtered(s, filename), filename)
  {
    var ks := FilterSelects(s, filename);
    forall j | 0 <= j < |ks| ensures Survives(s, filename, ks[j]) {
      assert ks[j] in ks;
    }
  }

  lemma {:induction false} CleanIsKept(s: seq<string>, filename: string)
    requires IsClean(s, filename)
    ensures ArgumentsPresent(s) && Filtered(s, filename) == s
  {
    if s != [] {
      assert SkipArity(s[0]).None?;
      assert IsClean(s[1..], filename);
      CleanIsKept(s[1..], filename);
      assert s == [s[0]] + s[1..];
    }
  }

  /** Editing a second time changes nothing. */
  lemma {:induction false} FilterTwice(s: seq<string>, filename: string)
    requires ArgumentsPresent(s)
    ensures ArgumentsPresent(Filtered(s, filename))
    ensures Filtered(Filtered(s, filename), filename) == Filtered(s, filename)
  {
    FilteredIsClean(s, filename);
    CleanIsKept(Filtered(s, filename), filename);
  }

  // ---------- the editor ----------

  /** The leading flags end at the first string that does not start with a dash. */
  lemma {:induction false} LeadingFlagsEnd(s: seq<string>) returns (n: nat)
    requires LeadingReadable(s)
    ensures n <= |s| && DropLeadingFlags(s) == s[n..]
    ensures forall k | 0 <= k < n :: s[k] != "" && s[k][0] == '-'
    ensures n < |s| ==> s[n] != "" && s[n][0] != '-'
  {
    n := 0;
    if s != [] && s[0][0] == '-' {
      var m := LeadingFlagsEnd(s[1..]);
      n := m + 1;
      assert s[1..][m..] == s[n..];
      forall k | 0 < k < n ensures s[k] != "" && s[k][0] == '-' {
        assert s[k] == s[1..][k - 1];
      }
    }
  }

  /** The list of flags of one command; a position stands for an iterator into the list. */
  class FlagList {
    var flags: seq<string>

    constructor (flags: seq<string>)
      ensures this.flags == flags
    {
      this.flags := flags;
    }

    method Erase(at: nat)
      requires at < |flags|
      modifies this
      ensures flags == old(flags[..at] + flags[at + 1..])
    {
      flags := flags[..at] + flags[at + 1..];
    }

    method Emplace(at: nat, flag: string)
      requires at <= |flags|
      modifies this
      ensures flags == old(flags[..at] + [flag] + flags[at..])
    {
      flags := flags[..at] + [flag] + flags[at..];
    }

    method EraseLeadingFlags()
      requires LeadingReadable(flags)
      modifies this
      ensures flags == DropLeadingFlags(old(flags))
    {
      while flags != [] && flags[0][0] == '-'
        invariant LeadingReadable(flags) && DropLeadingFlags(flags) == DropLeadingFlags(old(flags))
        decreases |flags|
      {
        ghost var rest := flags[1..];
        Erase(0);
        assert flags == rest;
      }
    }

    /** Erases a flag of the skip table at the position and its arguments. */
    method EraseSkipped(at: nat)
      requires at < |flags| && SkipArity(flags[at]).Some? && ArgumentsPresent(flags[at..])
      modifies this
      ensures flags == old(flags[..at] + flags[at + 1 + SkipArity(flags[at]).value..])
    {
      var arity := SkipArity(flags[at]).value;
      ghost var before := flags;
      assert before[at..][0] == before[at];
      Erase(at);
      for i := 0 to arity
        invariant flags == before[..at] + before[at + 1 + i..]
      {
        assert flags[..at] == before[..at];
        assert flags[at + 1..] == before[at + 1 + i..][1..];
        Erase(at);
      }
    }

    method FilterFrom(from: nat, filename: string)
      requires from <= |flags| && ArgumentsPresent(flags[from..]) && HeadsReadable(flags[from..])
      modifies this
      ensures flags == old(flags[..from] + Filtered(flags[from..], filename))
    {
      var it := from;
      ghost var target := flags[..from] + Filtered(flags[from..], filename);
      while it < |flags|
        invariant 0 <= it <= |flags| && ArgumentsPresent(flags[it..]) && HeadsReadable(flags[it..])
        invariant flags[..it] + Filtered(flags[it..], filename) == target
        decreases |flags| - it
      {
        var flag := flags[it];
        ghost var before := flags;
        FilterStep(before, it, filename);
        if SkipArity(flag).Some? {
          EraseSkipped(it);
          TailAfter(before, it, it + 1 + SkipArity(flag).value);
        } else if flag[0] == '/' && flag == filename {
          Erase(it);
          TailAfter(before, it, it + 1);
        } else {
          it := it + 1;
        }
      }
      assert flags[..it] == flags && flags[it..] == [];
    }

    method PruneCompilerFlags(filename: string, isCpp: string -> bool)
      requires Editable(flags)
      modifies this
      ensures flags == Pruned(old(flags), filename, isCpp)
    {
      hide DropLeadingFlags, Filtered, ArgumentsPresent, HeadsReadable, LeadingReadable;
      EraseLeadingFlags();
      if flags == [] {
        return;
      }
      ghost var command := flags;
      var compiler := flags[0];
      var it := 1;
      if isCpp(compiler) {
        Emplace(it, "-x");
        it := it + 1;
        Emplace(it, "c++");
        it := it + 1;
        TwoEmplaced(command, "-x", "c++");
      }
      ghost var front := if isCpp(compiler) then ["-x", "c++"] else [];
      CompilerErased(compiler, front, command[1..]);
      assert flags == [compiler] + (front + command[1..]);
      Erase(0);
      it := it - 1;
      FilterFrom(it, filename);
    }
  }

  lemma TwoEmplaced(s: seq<string>, x: string, y: string)
    requires s != []
    ensures var r := s[..1] + [x] + s[1..]; r[..2] + [y] + r[2..] == [s[0]] + ([x, y] + s[1..])
  {
  }

  lemma CompilerErased(compiler: string, front: seq<string>, rest: seq<string>)
    ensures var s := [compiler] + (front + rest); s[..0] + s[1..] == front + rest
    ensures (front + rest)[..|front|] == front && (front + rest)[|front|..] == rest
  {
  }

  lemma TailAfter(s: seq<string>, at: nat, to: nat)
    requires at <= to <= |s|
    ensures (s[..at] + s[to..])[..at] == s[..at] && (s[..at] + s[to..])[at..] == s[to..]
  {
  }

  lemma FilterStep(s: seq<string>, at: nat, filename: string)
    requires at < |s| && ArgumentsPresent(s[at..]) && HeadsReadable(s[at..])
    ensures var n := SkipArity(s[at]);
      if n.Some? then
        at + 1 + n.value <= |s| && ArgumentsPresent(s[at + 1 + n.value..]) && HeadsReadable(s[at + 1 + n.value..])
        && Filtered(s[at..], filename) == Filtered(s[at + 1 + n.value..], filename)
      else
        s[at] != "" && ArgumentsPresent(s[at + 1..]) && HeadsReadable(s[at + 1..])
        && s[..at] + Filtered(s[at..], filename)
           == (if IsSource(s[at], filename) then s[..at] else s[..at + 1]) + Filtered(s[at + 1..], filename)
  {
    var rest := s[at..];
    assert rest[0] == s[at] && rest[1..] == s[at + 1..];
    if TakesArgument(s[at]) {
      assert rest[2..] == s[at + 2..];
    } else if SkipArity(s[at]).None? && !IsSource(s[at], filename) {
      assert s[..at + 1] == s[..at] + [s[at]];
      assert s[..at] + ([s[at]] + Filtered(s[at + 1..], filename)) == s[..at + 1] + Filtered(s[at + 1..], filename);
    }
  }
}
