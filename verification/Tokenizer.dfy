/** Splitting text at delimiter characters, one call of the separator per token.  */
module Tokenizer {
  import opened Basics

  /** A kept delimiter is a token of its own, a dropped one is not; the sets may overlap. */
  datatype Delimiters = Delimiters(isDropped: char -> bool, isKept: char -> bool) {
    predicate At(c: char) {
      isDropped(c) || isKept(c)
    }
  }

  function Concat(ts: seq<string>): string {
    if ts == [] then "" else ts[0] + Concat(ts[1..])
  }

  // ---------- the reference: fields between delimiters ----------

  function FieldLength(s: string, d: Delimiters): (n: nat)
    ensures n <= |s|
  {
    if s == "" || d.At(s[0]) then 0 else 1 + FieldLength(s[1..], d)
  }

  /** Text taken apart into fields and the delimiters between them. */
  datatype Pieces = Last(field: string) | Cut(field: string, mark: char, rest: Pieces)

  function Split(s: string, d: Delimiters): Pieces {
    var n := FieldLength(s, d);
    if n == |s| then Last(s) else Cut(s[..n], s[n], Split(s[n + 1..], d))
  }

  function Text(p: Pieces): string {
    match p
    case Last(f) => f
    case Cut(f, c, rest) => f + ([c] + Text(rest))
  }

  predicate IsField(f: string, d: Delimiters) {
    forall i | 0 <= i < |f| :: !d.At(f[i])
  }

  /** No field has a delimiter in it, and every mark is one. */
  predicate Proper(p: Pieces, d: Delimiters) {
    match p
    case Last(f) => IsField(f, d)
    case Cut(f, c, rest) => IsField(f, d) && d.At(c) && Proper(rest, d)
  }

  lemma {:induction false} FieldEnds(s: string, d: Delimiters)
    ensures IsField(s[..FieldLength(s, d)], d)
    ensures FieldLength(s, d) < |s| ==> d.At(s[FieldLength(s, d)])
  {
    if s != "" && !d.At(s[0]) {
      var n := FieldLength(s[1..], d);
      FieldEnds(s[1..], d);
      forall i | 0 <= i < n + 1 ensures !d.At(s[i]) {
        assert i == 0 || s[i] == s[1..][..n][i - 1];
      }
    }
  }

  lemma {:induction false} FieldLengthIs(f: string, tail: string, d: Delimiters)
    requires IsField(f, d) && (tail == "" || d.At(tail[0]))
    ensures FieldLength(f + tail, d) == |f|
  {
    if f == "" {
      assert f + tail == tail;
    } else {
      assert (f + tail)[1..] == f[1..] + tail;
      FieldLengthIs(f[1..], tail, d);
    }
  }

  /** Putting the pieces together undoes splitting... */
  lemma {:induction false} SplitText(s: string, d: Delimiters)
    ensures Text(Split(s, d)) == s && Proper(Split(s, d), d)
    decreases |s|
  {
    hide FieldLength, IsField;
    var n := FieldLength(s, d);
    FieldEnds(s, d);
    if n < |s| {
      SplitText(s[n + 1..], d);
      assert s == s[..n] + ([s[n]] + s[n + 1..]);
    } else {
      assert s[..n] == s;
    }
  }

  /** ... and there is only one way to take text apart. */
  lemma {:induction false} SplitUnique(p: Pieces, d: Delimiters)
    requires Proper(p, d)
    ensures Split(Text(p), d) == p
  {
    hide FieldLength, IsField;
    match p
    case Last(f) =>
      FieldLengthIs(f, "", d);
      assert f + "" == f;
    case Cut(f, c, rest) =>
      var tail := [c] + Text(rest);
      FieldLengthIs(f, tail, d);
      SplitUnique(rest, d);
      assert (f + tail)[..|f|] == f && (f + tail)[|f| + 1..] == Text(rest);
  }

  // ---------- the tokens of the two modes ----------

  function Mark(c: char, d: Delimiters): (r: seq<string>)
    ensures |r| <= 1 && "" !in r
  {
    if d.isKept(c) then [[c]] else []
  }

  /** Keeping empty tokens: the fields, with the kept delimiters between them. */
  function Emitted(p: Pieces, d: Delimiters): seq<string> {
    match p
    case Last(f) => [f]
    case Cut(f, c, rest) => [f] + (Mark(c, d) + Emitted(rest, d))
  }

  function KeepTokens(s: string, d: Delimiters): seq<string> {
    Emitted(Split(s, d), d)
  }

  /** What is left to produce when the field in front of s has already been produced. */
  function AfterField(s: string, d: Delimiters): seq<string> {
    if s == "" then []
    else if d.isKept(s[0]) then [[s[0]]] + KeepTokens(s[1..], d)
    else if d.isDropped(s[0]) then KeepTokens(s[1..], d)
    else KeepTokens(s, d)
  }

  /** Dropping empty tokens. */
  function DropTokens(s: string, d: Delimiters): seq<string>
    decreases |s|
  {
    if s == "" then []
    else if d.isDropped(s[0]) then DropTokens(s[1..], d)
    else if d.isKept(s[0]) then [[s[0]]] + DropTokens(s[1..], d)
    else
      var n := FieldLength(s, d);
      [s[..n]] + DropTokens(s[n..], d)
  }

  /** Everything that the separator in the given state will still produce. */
  function Remaining(s: string, d: Delimiters, keepEmpty: bool, outputDone: bool): seq<string> {
    if !keepEmpty then DropTokens(s, d) else if outputDone then AfterField(s, d) else KeepTokens(s, d)
  }

  lemma SplitStep(s: string, d: Delimiters)
    ensures var n := FieldLength(s, d); Split(s, d) == if n == |s| then Last(s) else Cut(s[..n], s[n], Split(s[n + 1..], d))
  {
    hide FieldLength;
  }

  lemma EmittedStep(f: string, c: char, rest: Pieces, d: Delimiters)
    ensures Emitted(Last(f), d) == [f]
    ensures Emitted(Cut(f, c, rest), d) == [f] + (Mark(c, d) + Emitted(rest, d))
  {
  }

  lemma KeepTokensStep(s: string, d: Delimiters)
    ensures var n := FieldLength(s, d); KeepTokens(s, d) == [s[..n]] + AfterField(s[n..], d)
  {
    hide FieldLength, Split, Emitted, AfterField, IsField, Mark;
    var n := FieldLength(s, d);
    var tail := s[n..];
    FieldEnds(s, d);
    SplitStep(s, d);
    if n < |s| {
      assert tail != "" && tail[0] == s[n] && tail[1..] == s[n + 1..];
      EmittedStep(s[..n], s[n], Split(s[n + 1..], d), d);
      AfterFieldStep(tail, d);
    } else {
      assert s[..n] == s && tail == "";
      EmittedStep(s, ' ', Last(""), d);
      NothingAfter(d);
    }
  }

  lemma NothingAfter(d: Delimiters)
    ensures AfterField("", d) == []
  {
  }

  lemma AfterFieldStep(s: string, d: Delimiters)
    requires s != ""
    ensures d.At(s[0]) ==> AfterField(s, d) == Mark(s[0], d) + KeepTokens(s[1..], d)
    ensures !d.At(s[0]) ==> AfterField(s, d) == KeepTokens(s, d)
  {
  }

  // ---------- what the tokens are ----------

  function Count(s: string, p: char -> bool): nat {
    if s == "" then 0 else (if p(s[0]) then 1 else 0) + Count(s[1..], p)
  }

  lemma {:induction false} CountConcat(s: string, t: string, p: char -> bool)
    ensures Count(s + t, p) == Count(s, p) + Count(t, p)
  {
    if s == "" {
      assert s + t == t;
    } else {
      CountConcat(s[1..], t, p);
      assert (s + t)[1..] == s[1..] + t;
    }
  }

  lemma {:induction false} CountNone(s: string, p: char -> bool)
    requires forall i | 0 <= i < |s| :: !p(s[i])
    ensures Count(s, p) == 0
  {
    if s != "" {
      CountNone(s[1..], p);
    }
  }

  lemma CountCut(f: string, c: char, rest: string, p: char -> bool)
    requires forall i | 0 <= i < |f| :: !p(f[i])
    ensures Count(f + ([c] + rest), p) == (if p(c) then 1 else 0) + Count(rest, p)
  {
    CountConcat(f, [c] + rest, p);
    CountNone(f, p);
    assert ([c] + rest)[1..] == rest;
  }

  lemma {:induction false} EmittedCount(p: Pieces, d: Delimiters)
    requires Proper(p, d)
    ensures |Emitted(p, d)| == 1 + Count(Text(p), c => d.At(c)) + Count(Text(p), d.isKept)
  {
    match p
    case Last(f) =>
      CountNone(f, c => d.At(c));
      CountNone(f, d.isKept);
    case Cut(f, c, rest) =>
      EmittedCount(rest, d);
      CountCut(f, c, Text(rest), c => d.At(c));
      CountCut(f, c, Text(rest), d.isKept);
  }

  /** Keeping empty tokens, there is one field more than there are delimiters, and one token more
      for each kept delimiter. */
  lemma {:induction false} KeepCount(s: string, d: Delimiters)
    ensures |KeepTokens(s, d)| == 1 + Count(s, c => d.At(c)) + Count(s, d.isKept)
  {
    SplitText(s, d);
    EmittedCount(Split(s, d), d);
  }

  function Sieve(s: string, p: char -> bool): string {
    if s == "" then "" else (if p(s[0]) then [s[0]] else "") + Sieve(s[1..], p)
  }

  lemma {:induction false} SieveConcat(s: string, t: string, p: char -> bool)
    ensures Sieve(s + t, p) == Sieve(s, p) + Sieve(t, p)
  {
    if s == "" {
      assert s + t == t;
    } else {
      SieveConcat(s[1..], t, p);
      assert (s + t)[1..] == s[1..] + t;
      Associative(if p(s[0]) then [s[0]] else "", Sieve(s[1..], p), Sieve(t, p));
    }
  }

  lemma {:induction false} SieveAll(s: string, p: char -> bool)
    requires forall i | 0 <= i < |s| :: p(s[i])
    ensures Sieve(s, p) == s
  {
    if s != "" {
      SieveAll(s[1..], p);
      assert s == [s[0]] + s[1..];
    }
  }

  lemma SieveCut(f: string, c: char, rest: string, p: char -> bool)
    requires forall i | 0 <= i < |f| :: p(f[i])
    ensures Sieve(f + ([c] + rest), p) == f + ((if p(c) then [c] else "") + Sieve(rest, p))
  {
    SieveConcat(f, [c] + rest, p);
    SieveAll(f, p);
    assert ([c] + rest)[1..] == rest;
  }

  lemma ConcatStep(f: string, mark: seq<string>, rest: seq<string>)
    requires |mark| <= 1
    ensures Concat([f] + (mark + rest)) == f + ((if mark == [] then "" else mark[0]) + Concat(rest))
  {
    assert ([f] + (mark + rest))[1..] == mark + rest;
    if mark == [] {
      assert mark + rest == rest;
    } else {
      assert (mark + rest)[1..] == rest;
    }
  }

  predicate NotOnlyDropped(d: Delimiters, c: char) {
    d.isKept(c) || !d.isDropped(c)
  }

  lemma {:induction false} EmittedConcat(p: Pieces, d: Delimiters)
    requires Proper(p, d)
    ensures Concat(Emitted(p, d)) == Sieve(Text(p), c => NotOnlyDropped(d, c))
  {
    var q := c => NotOnlyDropped(d, c);
    match p
    case Last(f) =>
      SieveAll(f, q);
      assert [f][1..] == [];
    case Cut(f, c, rest) =>
      EmittedConcat(rest, d);
      SieveCut(f, c, Text(rest), q);
      ConcatStep(f, Mark(c, d), Emitted(rest, d));
  }

  /** The tokens run together are the text without the delimiters that are not kept. */
  lemma KeepConcat(s: string, d: Delimiters)
    ensures Concat(KeepTokens(s, d)) == Sieve(s, c => NotOnlyDropped(d, c))
  {
    SplitText(s, d);
    EmittedConcat(Split(s, d), d);
  }

  lemma DropTokensStep(s: string, d: Delimiters)
    requires s != "" && !d.isDropped(s[0])
    ensures var n := if d.isKept(s[0]) then 1 else FieldLength(s, d);
      0 < n <= |s| && DropTokens(s, d) == [s[..n]] + DropTokens(s[n..], d)
      && IsField(s[1..n], d)
  {
    hide FieldLength, IsField;
    FieldEnds(s, d);
    if d.isKept(s[0]) {
      assert s[..1] == [s[0]] && s[1..1] == "";
      FieldTail("", d);
    } else {
      var n := FieldLength(s, d);
      FieldNotEmpty(s, d);
      FieldTail(s[..n], d);
      assert s[1..n] == s[..n][1..];
    }
  }

  lemma FieldTail(f: string, d: Delimiters)
    requires IsField(f, d) || f == ""
    ensures f == "" ==> IsField(f, d)
    ensures f != "" ==> IsField(f[1..], d)
  {
  }

  /** In the other mode no token is empty, and run together they are the text without the dropped
      delimiters. */
  lemma {:induction false} DropConcat(s: string, d: Delimiters)
    ensures Concat(DropTokens(s, d)) == Sieve(s, c => !d.isDropped(c))
    ensures "" !in DropTokens(s, d)
    decreases |s|
  {
    hide FieldLength;
    if s != "" {
      if d.isDropped(s[0]) {
        DropConcat(s[1..], d);
      } else {
        DropTokensStep(s, d);
        DropConcatStep(s, if d.isKept(s[0]) then 1 else FieldLength(s, d), d);
      }
    }
  }

  lemma {:induction false} DropConcatStep(s: string, n: nat, d: Delimiters)
    requires 0 < n <= |s| && !d.isDropped(s[0]) && IsField(s[1..n], d)
    requires DropTokens(s, d) == [s[..n]] + DropTokens(s[n..], d)
    ensures Concat(DropTokens(s, d)) == Sieve(s, c => !d.isDropped(c))
    ensures "" !in DropTokens(s, d)
    decreases |s|, 0
  {
    hide DropTokens, FieldLength;
    var p := c => !d.isDropped(c);
    var f := s[..n];
    DropConcat(s[n..], d);
    forall i | 0 <= i < n ensures p(f[i]) {
      assert i == 0 || f[i] == s[1..n][i - 1];
    }
    SieveAll(f, p);
    SieveConcat(f, s[n..], p);
    assert f + s[n..] == s;
    assert [f] + ([] + DropTokens(s[n..], d)) == [f] + DropTokens(s[n..], d);
    ConcatStep(f, [], DropTokens(s[n..], d));
  }

  // ---------- the two modes compared ----------

  function NonEmpty(ts: seq<string>): seq<string> {
    if ts == [] then [] else (if ts[0] == "" then [] else [ts[0]]) + NonEmpty(ts[1..])
  }

  lemma {:induction false} NonEmptyConcat(ts: seq<string>)
    ensures Concat(NonEmpty(ts)) == Concat(ts)
  {
    if ts != [] {
      NonEmptyConcat(ts[1..]);
      if ts[0] == "" {
        assert [] + NonEmpty(ts[1..]) == NonEmpty(ts[1..]);
      } else {
        assert ([ts[0]] + NonEmpty(ts[1..]))[1..] == NonEmpty(ts[1..]);
      }
    }
  }

  lemma DropAfterField(f: string, tail: string, d: Delimiters)
    requires IsField(f, d) && (tail == "" || d.At(tail[0]))
    ensures DropTokens(f + tail, d) == (if f == "" then [] else [f]) + DropTokens(tail, d)
  {
    hide FieldLength;
    if f == "" {
      assert f + tail == tail;
    } else {
      var s := f + tail;
      assert s[..|f|] == f && s[|f|..] == tail && s[0] == f[0] && !d.At(f[0]);
      FieldLengthIs(f, tail, d);
    }
  }

  lemma NonEmptyStep(f: string, mark: seq<string>, rest: seq<string>)
    requires |mark| <= 1 && "" !in mark
    ensures NonEmpty([f] + (mark + rest)) == (if f == "" then [] else [f]) + (mark + NonEmpty(rest))
  {
    assert ([f] + (mark + rest))[1..] == mark + rest;
    if mark == [] {
      assert mark + rest == rest;
    } else {
      assert mark == [mark[0]] && (mark + rest)[1..] == rest;
    }
  }

  predicate MarksDisjoint(p: Pieces, d: Delimiters) {
    p.Cut? ==> !(d.isKept(p.mark) && d.isDropped(p.mark)) && MarksDisjoint(p.rest, d)
  }

  lemma {:induction false} DropOfText(p: Pieces, d: Delimiters)
    requires Proper(p, d) && MarksDisjoint(p, d)
    ensures DropTokens(Text(p), d) == NonEmpty(Emitted(p, d))
  {
    hide IsField, FieldLength;
    match p
    case Last(f) =>
      DropAfterField(f, "", d);
      assert f + "" == f && [f] == [f] + ([] + []);
      NonEmptyStep(f, [], []);
    case Cut(f, c, rest) =>
      var tail := [c] + Text(rest);
      DropOfText(rest, d);
      DropAfterField(f, tail, d);
      assert tail[0] == c && tail[1..] == Text(rest);
      NonEmptyStep(f, Mark(c, d), Emitted(rest, d));
      assert DropTokens(tail, d) == Mark(c, d) + DropTokens(Text(rest), d);
  }

  lemma {:induction false} SieveSame(s: string, p: char -> bool, q: char -> bool)
    requires forall i | 0 <= i < |s| && p(s[i]) :: q(s[i])
    ensures |Sieve(s, p)| <= |Sieve(s, q)|
    ensures |Sieve(s, p)| == |Sieve(s, q)| ==> forall i | 0 <= i < |s| :: p(s[i]) == q(s[i])
  {
    if s != "" {
      SieveSame(s[1..], p, q);
      if |Sieve(s, p)| == |Sieve(s, q)| {
        forall i | 0 <= i < |s| ensures p(s[i]) == q(s[i]) {
          if i > 0 {
            assert s[i] == s[1..][i - 1];
          }
        }
      }
    }
  }

  predicate NeverBoth(s: string, d: Delimiters) {
    forall i | 0 <= i < |s| :: !(d.isKept(s[i]) && d.isDropped(s[i]))
  }

  lemma {:induction false} NeverBothMarks(p: Pieces, d: Delimiters)
    requires NeverBoth(Text(p), d)
    ensures MarksDisjoint(p, d)
  {
    if p.Cut? {
      var s, n := Text(p), |p.field|;
      assert s[n] == p.mark;
      forall i | 0 <= i < |Text(p.rest)| ensures Text(p.rest)[i] == s[n + 1 + i] {
      }
      NeverBothMarks(p.rest, d);
    }
  }

  /** Dropping empty tokens leaves the tokens of the other mode without the empty ones, exactly when
      no delimiter in the text is both kept and dropped. */
  lemma DropIsKeepWithoutEmpties(s: string, d: Delimiters)
    ensures DropTokens(s, d) == NonEmpty(KeepTokens(s, d)) <==> NeverBoth(s, d)
  {
    hide DropTokens, Split, Emitted, Sieve;
    SplitText(s, d);
    if NeverBoth(s, d) {
      NeverBothMarks(Split(s, d), d);
      DropOfText(Split(s, d), d);
    } else if DropTokens(s, d) == NonEmpty(KeepTokens(s, d)) {
      DropConcat(s, d);
      NonEmptyConcat(KeepTokens(s, d));
      KeepConcat(s, d);
      SieveSame(s, c => !d.isDropped(c), c => NotOnlyDropped(d, c));
      assert false;
    }
  }

  /** A separator that has been used before may start with its flag set, since its reset does
      nothing: it then loses the first, empty, field exactly when the text starts with a delimiter. */
  lemma ReuseLosesField(s: string, d: Delimiters)
    requires s != ""
    ensures d.At(s[0]) ==> KeepTokens(s, d) == [""] + AfterField(s, d)
    ensures AfterField(s, d) == KeepTokens(s, d) <==> !d.At(s[0])
  {
    if d.At(s[0]) {
      KeepTokensStep(s, d);
      assert s[..0] == "" && s[0..] == s;
    }
  }

  // ---------- the separator ----------

  class CharSeparator {
    const delimiters: Delimiters
    const keepEmpty: bool
    var outputDone: bool

    constructor (delimiters: Delimiters, keepEmpty: bool)
      ensures this.delimiters == delimiters && this.keepEmpty == keepEmpty && !outputDone
    {
      this.delimiters := delimiters;
      this.keepEmpty := keepEmpty;
      outputDone := false;
    }

    /** The copy that a token iterator makes. */
    constructor Copy(f: CharSeparator)
      ensures delimiters == f.delimiters && keepEmpty == f.keepEmpty && outputDone == f.outputDone
    {
      delimiters := f.delimiters;
      keepEmpty := f.keepEmpty;
      outputDone := f.outputDone;
    }

    ghost function Rest(s: string): seq<string>
      reads this
    {
      Remaining(s, delimiters, keepEmpty, outputDone)
    }

    /** Some calls take no character and only set the flag; this still gets smaller. */
    ghost function Work(left: int): int
      reads this
    {
      2 * left + if outputDone then 0 else 1
    }

    method SkipDropped(input: string, start: nat) returns (next: nat)
      requires start <= |input|
      ensures start <= next <= |input| && (next < |input| ==> !delimiters.isDropped(input[next]))
      ensures DropTokens(input[start..], delimiters) == DropTokens(input[next..], delimiters)
    {
      next := start;
      while next != |input| && delimiters.isDropped(input[next])
        invariant start <= next <= |input|
        invariant DropTokens(input[start..], delimiters) == DropTokens(input[next..], delimiters)
        decreases |input| - next
      {
        assert input[next..][0] == input[next] && input[next..][1..] == input[next + 1..];
        next := next + 1;
      }
    }

    /** Takes the characters up to the next delimiter; the text built up character by character is
        the text between the two positions. */
    method TakeField(input: string, start: nat) returns (next: nat, built: string)
      requires start <= |input|
      ensures next == start + FieldLength(input[start..], delimiters) <= |input|
      ensures built == input[start..next] == input[start..][..next - start]
      ensures next < |input| ==> delimiters.At(input[next])
    {
      hide FieldLength;
      next, built := start, "";
      FieldAtEnd(delimiters);
      assert input[start..start] == "";
      while next != |input| && !delimiters.isDropped(input[next]) && !delimiters.isKept(input[next])
        invariant start <= next <= |input| && built == input[start..next]
        invariant FieldLength(input[start..], delimiters) == next - start + FieldLength(input[next..], delimiters)
        decreases |input| - next
      {
        FieldGoesOn(input, next, delimiters);
        assert input[start..next + 1] == input[start..next] + [input[next]];
        built := built + [input[next]];
        next := next + 1;
      }
      if next < |input| {
        FieldEndsHere(input, next, delimiters);
      }
      SliceOfSlice(input, start, next);
    }

    /** The call when empty tokens are dropped. */
    method CallDropping(input: string, begin: nat) returns (ok: bool, next: nat, token: string, appended: string)
      requires begin <= |input|
      ensures begin <= next <= |input|
      ensures ok ==> token == appended && begin < next
      ensures DropTokens(input[begin..], delimiters)
           == if ok then [token] + DropTokens(input[next..], delimiters) else []
    {
      hide DropTokens, FieldLength;
      appended := "";
      next := SkipDropped(input, begin);
      var start := next;
      if next == |input| {
        DropTokensEnd(input[next..], delimiters);
        return false, next, "", "";
      }
      ghost var s := input[start..];
      assert s[0] == input[next] && s[1..] == input[next + 1..];
      DropTokensStep(s, delimiters);
      if delimiters.isKept(input[next]) {
        appended := appended + [input[next]];
        next := next + 1;
        assert input[start..next] == [s[0]] == s[..1];
      } else {
        next, appended := TakeField(input, start);
        assert s[next - start..] == input[next..];
      }
      ok, token := true, input[start..next];
    }

    /** The call when empty tokens are kept: the flag says whether the field before the position has
        been produced. */
    method CallKeeping(input: string, begin: nat) returns (ok: bool, next: nat, token: string, appended: string)
      requires begin <= |input| && keepEmpty
      modifies this`outputDone
      ensures begin <= next <= |input|
      ensures ok ==> token == appended
      ensures old(Rest(input[begin..])) == if ok then [token] + Rest(input[next..]) else []
      ensures ok ==> Work(|input| - next) < old(Work(|input| - begin))
    {
      hide KeepTokens, AfterField, FieldLength;
      next, token, appended := begin, "", "";
      var start := next;
      if next == |input| {
        AtEnd(delimiters);
        assert input[next..] == "" && input[start..next] == "";
        if !outputDone {
          outputDone := true;
          ok, token := true, input[start..next];
        } else {
          ok := false;
        }
        return;
      }
      Suffix(input, next);
      ReuseLosesField(input[next..], delimiters);
      if delimiters.isKept(input[next]) {
        if !outputDone {
          outputDone := true;
        } else {
          AfterFieldStep(input[next..], delimiters);
          appended := appended + [input[next]];
          next := next + 1;
          outputDone := false;
        }
      } else if !outputDone && delimiters.isDropped(input[next]) {
        outputDone := true;
        assert input[start..next] == "";
      } else {
        AfterFieldStep(input[next..], delimiters);
        if delimiters.isDropped(input[next]) {
          NoMark(KeepTokens(input[next + 1..], delimiters));
          next := next + 1;
          start := next;
        } else {
          FieldNotEmpty(input[next..], delimiters);
        }
        KeepTokensStep(input[start..], delimiters);
        next, appended := TakeField(input, start);
        SuffixOfSuffix(input, start, next);
        outputDone := true;
      }
      ok, token := true, input[start..next];
    }

    /** One token.  Assigning the text between two positions and appending the characters one by one,
        which the source chooses between by the kind of iterator, give the same token. */
    method Call(input: string, begin: nat) returns (ok: bool, next: nat, token: string, appended: string)
      requires begin <= |input|
      modifies this`outputDone
      ensures begin <= next <= |input|
      ensures ok ==> token == appended
      ensures old(Rest(input[begin..])) == if ok then [token] + Rest(input[next..]) else []
      ensures ok ==> Work(|input| - next) < old(Work(|input| - begin))
    {
      hide KeepTokens, AfterField, DropTokens;
      if !keepEmpty {
        ok, next, token, appended := CallDropping(input, begin);
      } else {
        ok, next, token, appended := CallKeeping(input, begin);
      }
    }
  }

  lemma Suffix(s: string, i: nat)
    requires i < |s|
    ensures s[i..] != "" && s[i..][0] == s[i] && s[i..][1..] == s[i + 1..] && s[i..i + 1] == [s[i]] && s[i..i] == ""
  {
  }

  lemma SuffixOfSuffix(s: string, i: nat, j: nat)
    requires i <= j <= |s|
    ensures s[i..][j - i..] == s[j..]
  {
  }

  lemma NoMark(rest: seq<string>)
    ensures [] + rest == rest
  {
  }

  lemma FieldAtEnd(d: Delimiters)
    ensures FieldLength("", d) == 0
  {
  }

  lemma FieldGoesOn(s: string, i: nat, d: Delimiters)
    requires i < |s| && !d.At(s[i])
    ensures FieldLength(s[i..], d) == 1 + FieldLength(s[i + 1..], d)
  {
    assert s[i..][0] == s[i] && s[i..][1..] == s[i + 1..];
  }

  lemma FieldEndsHere(s: string, i: nat, d: Delimiters)
    requires i < |s| && d.At(s[i])
    ensures FieldLength(s[i..], d) == 0
  {
    assert s[i..][0] == s[i];
  }

  lemma SliceOfSlice(s: string, start: nat, next: nat)
    requires start <= next <= |s|
    ensures s[start..][..next - start] == s[start..next]
  {
  }

  lemma AtEnd(d: Delimiters)
    ensures KeepTokens("", d) == [""] && AfterField("", d) == []
  {
  }

  lemma DropTokensEnd(s: string, d: Delimiters)
    requires s == ""
    ensures DropTokens(s, d) == []
  {
  }

  lemma FieldNotEmpty(s: string, d: Delimiters)
    requires s != "" && !d.At(s[0])
    ensures FieldLength(s, d) > 0
  {
  }

  /** The iterator that runs the separator. */
  class TokenIterator {
    const f: CharSeparator
    const input: string
    var begin: nat
    var valid: bool
    var tok: string

    ghost predicate Valid()
      reads this, f
    {
      begin <= |input|
    }

    /** The current token and all that follow. */
    ghost function Tokens(): seq<string>
      requires Valid()
      reads this, f
    {
      if valid then [tok] + f.Rest(input[begin..]) else []
    }

    constructor (separator: CharSeparator, input: string)
      ensures Valid() && fresh(f) && this.input == input && f.keepEmpty == separator.keepEmpty
      ensures Tokens() == if input == "" then [] else separator.Rest(input)
    {
      f := new CharSeparator.Copy(separator);
      this.input := input;
      begin, valid, tok := 0, false, "";
      new;
      if begin != |input| {
        assert input[begin..] == input;
        var appended;
        valid, begin, tok, appended := f.Call(input, begin);
      }
    }

    method Increment()
      requires Valid() && valid
      modifies this, f
      ensures Valid() && Tokens() == old(Tokens())[1..]
      ensures valid ==> f.Work(|input| - begin) < old(f.Work(|input| - begin))
    {
      ghost var rest := f.Rest(input[begin..]);
      assert ([tok] + rest)[1..] == rest;
      var appended;
      valid, begin, tok, appended := f.Call(input, begin);
    }
  }

  lemma TokenGone(token: string, rest: seq<string>)
    ensures ([token] + rest)[1..] == rest
  {
  }

  /** Running an iterator to its end yields every token, and the run does end. */
  method Tokenize(separator: CharSeparator, input: string) returns (tokens: seq<string>)
    ensures tokens == if input == "" then [] else separator.Rest(input)
  {
    hide Remaining;
    var it := new TokenIterator(separator, input);
    tokens := [];
    ghost var all := it.Tokens();
    while it.valid
      invariant it.Valid() && fresh(it) && fresh(it.f) && it.input == input
      invariant tokens + it.Tokens() == all
      decreases if it.valid then 1 + it.f.Work(|input| - it.begin) else 0
    {
      ghost var rest := it.f.Rest(input[it.begin..]);
      Associative(tokens, [it.tok], rest);
      TokenGone(it.tok, rest);
      tokens := tokens + [it.tok];
      it.Increment();
    }
  }
}
