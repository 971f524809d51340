/** Printing a list of extension options and parsing it back. */
module OptionRoundTrip {
  import opened Bytes
  import opened ExtOptions

  datatype Value = Value(digits: seq<byte>, quoted: bool)

  /** An option in a list: leading spaces, which option, and its value if it has one. */
  datatype Item = Item(pad: nat, index: nat, value: Option<Value>)

  predicate Fits(opts: seq<Opt>, item: Item)
  {
    && item.index < |opts|
    && match item.value
       case None => !opts[item.index].kind.Dec?
       case Some(v) => !opts[item.index].kind.NoArg? && v.digits != [] && forall d | d in v.digits :: 48 <= d <= 57
  }

  predicate AllFit(opts: seq<Opt>, items: seq<Item>)
  {
    forall i | 0 <= i < |items| :: Fits(opts, items[i])
  }

  function Spaces(n: nat): seq<byte> { seq(n, _ => ' ' as int) }

  function PrintValue(v: Option<Value>): seq<byte>
  {
    if v.None? then []
    else if v.value.quoted then ['=' as int, '"' as int] + (v.value.digits + ['"' as int])
    else ['=' as int] + v.value.digits
  }

  /** The options joined by semicolons. */
  function Print(opts: seq<Opt>, items: seq<Item>): seq<byte>
    requires AllFit(opts, items)
  {
    if items == [] then []
    else
      var it := items[0];
      Spaces(it.pad) + (opts[it.index].name + (PrintValue(it.value) +
        if |items| == 1 then [] else [';' as int] + Print(opts, items[1..])))
  }

  /** The callback for an option; the closing quote counts as part of a value at the very end. */
  function Expected(it: Item, last: bool): OptSet
  {
    OptSet(it.index, if it.value.None? then None
                     else if it.value.value.quoted && last then Some(it.value.value.digits + ['"' as int])
                     else Some(it.value.value.digits))
  }

  function ExpectedAll(items: seq<Item>): seq<OptSet>
  {
    if items == [] then [] else [Expected(items[0], |items| == 1)] + ExpectedAll(items[1..])
  }

  // ----- text at a position -----

  predicate At(input: seq<byte>, i: nat, t: seq<byte>)
  {
    i + |t| <= |input| && input[i..i + |t|] == t
  }

  lemma AtSplit(input: seq<byte>, i: nat, a: seq<byte>, b: seq<byte>)
    requires At(input, i, a + b)
    ensures At(input, i, a) && At(input, i + |a|, b)
  {
    var s := input[i..i + |a + b|];
    assert a == s[..|a|] && b == s[|a|..];
  }

  lemma AtChar(input: seq<byte>, i: nat, t: seq<byte>, k: nat)
    requires At(input, i, t) && k < |t|
    ensures i + k < |input| && input[i + k] == t[k]
  {
    assert input[i..i + |t|][k] == input[i + k];
  }

  // ----- spaces -----

  predicate Ok(s: State, i: nat) { s.start.Some? ==> s.start.value <= i }

  lemma SpaceStep(opts: seq<Opt>, input: seq<byte>, i: nat, s: State)
    requires Ok(s, i) && i < |input| && input[i] == ' ' as int
    requires s.leap.SeekName? || s.leap.SeekArgTerm? || s.leap.SeekVal?
    ensures Parse(opts, input, i, s) == Parse(opts, input, i + 1, s)
  {
    var r := Parse(opts, input, i + 1, s);
    assert [] + r.0 == r.0;
  }

  lemma {:induction false} SkipSpaces(opts: seq<Opt>, input: seq<byte>, i: nat, k: nat, s: State)
    requires Ok(s, i) && At(input, i, Spaces(k))
    requires s.leap.SeekName? || s.leap.SeekArgTerm? || s.leap.SeekVal?
    ensures Parse(opts, input, i, s) == Parse(opts, input, i + k, s)
    decreases k
  {
    hide Parse;
    if k > 0 {
      AtChar(input, i, Spaces(k), 0);
      assert Spaces(k) == [' ' as int] + Spaces(k - 1);
      AtSplit(input, i, [' ' as int], Spaces(k - 1));
      SpaceStep(opts, input, i, s);
      SkipSpaces(opts, input, i + 1, k - 1, s);
    }
  }

  // ----- names -----

  /** The options whose name starts with `p`. */
  function Candidates(opts: seq<Opt>, p: seq<byte>): set<nat>
  {
    set n | 0 <= n < |opts| && p <= opts[n].name
  }

  /** Candidates for `p`, of which those before `n` have been held against the next character too. */
  function Sieved(opts: seq<Opt>, p: seq<byte>, c: byte, n: nat): set<nat>
  {
    set k | k in Candidates(opts, p) && (k < n ==> p + [c] <= opts[k].name)
  }

  /** No option before `n` has `p` followed by `c` as its whole name. */
  predicate NoneEnds(opts: seq<Opt>, p: seq<byte>, c: byte, n: nat)
  {
    forall k | 0 <= k < n && k < |opts| :: opts[k].name != p + [c]
  }

  lemma SieveKeeps(opts: seq<Opt>, p: seq<byte>, c: byte, n: nat)
    requires n < |opts| && (n in Sieved(opts, p, c, n) ==> p + [c] <= opts[n].name)
    ensures Sieved(opts, p, c, n + 1) == Sieved(opts, p, c, n)
  {
  }

  lemma SieveDrops(opts: seq<Opt>, p: seq<byte>, c: byte, n: nat)
    requires n < |opts| && n in Sieved(opts, p, c, n) && |p| < |opts[n].name| && opts[n].name[|p|] != c
    ensures Sieved(opts, p, c, n + 1) == Sieved(opts, p, c, n) - {n}
  {
    NotPrefix(p + [c], opts[n].name, |p|);
  }

  lemma NotPrefix(a: seq<byte>, b: seq<byte>, i: nat)
    requires i < |a| && i < |b| && a[i] != b[i]
    ensures !(a <= b)
  {
  }

  /** A candidate's name is longer than what has been read, and has no NUL. */
  lemma CandidateName(opts: seq<Opt>, p: seq<byte>, c: byte, n: nat)
    requires ValidTable(opts) && n < |opts| && n in Sieved(opts, p, c, n) && opts[n].name != p
    ensures |p| < |opts[n].name| && CharAt(opts[n].name, |p|) == opts[n].name[|p|]
    ensures opts[n].name[|p|] == c ==> p + [c] <= opts[n].name
    ensures opts[n].name[|p|] == c ==> (CharAt(opts[n].name, |p| + 1) == 0 <==> opts[n].name == p + [c])
  {
    var name := opts[n].name;
    assert name[..|p|] == p;
    if |name| > |p| + 1 {
      assert name[|p| + 1] in name;
    }
  }

  /** Only the option looked for can have `p` followed by `c` as its whole name. */
  lemma OnlyGoalEnds(opts: seq<Opt>, p: seq<byte>, c: byte, n: nat, goal: nat)
    requires ValidTable(opts) && goal < |opts| && p + [c] <= opts[goal].name && n < |opts| && opts[n].name == p + [c]
    ensures n == goal
  {
    assert opts[n].name <= opts[goal].name;
  }

  lemma {:induction false} NarrowStep(opts: seq<Opt>, p: seq<byte>, c: byte, n: nat, goal: nat)
    requires ValidTable(opts) && goal < |opts| && p + [c] <= opts[goal].name && n <= |opts|
    requires forall k | 0 <= k < |opts| :: opts[k].name != p
    requires NoneEnds(opts, p, c, n)
    ensures var m := Narrow(opts, Sieved(opts, p, c, n), c, |p|, n);
      && !m.empty
      && (opts[goal].name == p + [c] ==> m.hit == Some(goal))
      && (opts[goal].name != p + [c] ==> m.hit == None && m.live == Candidates(opts, p + [c]))
    decreases |opts| - n
  {
    var before := Sieved(opts, p, c, n);
    assert goal in before && goal in Sieved(opts, p, c, n + 1);
    if n == |opts| {
      assert before == Candidates(opts, p + [c]);
      return;
    }
    hide ValidTable, Sieved, Candidates, CharAt;
    if n in before {
      CandidateName(opts, p, c, n);
      if opts[n].name[|p|] == c {
        if opts[n].name == p + [c] {
          OnlyGoalEnds(opts, p, c, n, goal);
          return;
        }
        SieveKeeps(opts, p, c, n);
      } else {
        SieveDrops(opts, p, c, n);
        assert opts[n].name != p + [c];
      }
    } else {
      SieveKeeps(opts, p, c, n);
      assert opts[n].name != p + [c] by { NotSieved(opts, p, c, n); }
    }
    NarrowStep(opts, p, c, n + 1, goal);
  }

  lemma NotSieved(opts: seq<Opt>, p: seq<byte>, c: byte, n: nat)
    requires n < |opts| && n !in Sieved(opts, p, c, n)
    ensures opts[n].name != p + [c]
  {
  }

  /** The state after a whole name. */
  predicate Named(s: State, goal: nat)
  {
    s.leap.SeekVal? && s.index == goal && s.start.None? && !s.quote
  }

  /** The state after the first `j` characters of option `goal`'s name. */
  predicate MidName(opts: seq<Opt>, s: State, goal: nat, j: nat)
  {
    && goal < |opts| && j < |opts[goal].name|
    && if j == 0 then s.leap.SeekName?
       else s.leap.EatName? && s.live == Candidates(opts, opts[goal].name[..j]) && s.w == j
  }

  lemma NameChar(opts: seq<Opt>, s: State, goal: nat, j: nat, last: bool)
    requires ValidTable(opts) && goal < |opts| && j < |opts[goal].name|
    requires s.live == Candidates(opts, opts[goal].name[..j]) && s.w == j
    ensures var name := opts[goal].name;
      var step := OnName(opts, s, name[j], last);
      && step.Go?
      && (j + 1 < |name| ==> step.sets == [] && MidName(opts, step.s, goal, j + 1) && step.s.start.None?)
      && (j + 1 == |name| ==> step.sets == (if last then [OptSet(goal, None)] else []) && Named(step.s, goal))
  {
    var name := opts[goal].name;
    var p, c := name[..j], name[j];
    assert p + [c] == name[..j + 1];
    assert p <= name;
    assert forall k | 0 <= k < |opts| :: opts[k].name != p;
    assert Sieved(opts, p, c, 0) == s.live;
    NarrowStep(opts, p, c, 0, goal);
    if j + 1 == |name| {
      assert name == p + [c];
    }
  }

  lemma NameNext(opts: seq<Opt>, input: seq<byte>, i: nat, s: State, goal: nat, j: nat)
    requires ValidTable(opts) && MidName(opts, s, goal, j) && Ok(s, i)
    requires i < |input| && input[i] == opts[goal].name[j]
    ensures var name := opts[goal].name;
      var step := Next(opts, input, i, s);
      && step.Go?
      && (j + 1 < |name| ==> step.sets == [] && MidName(opts, step.s, goal, j + 1) && step.s.start.None?)
      && (j + 1 == |name| ==>
            step.sets == (if i + 1 == |input| then [OptSet(goal, None)] else []) && Named(step.s, goal))
  {
    var name := opts[goal].name;
    if j == 0 {
      assert AllOptions(|opts|) == Candidates(opts, name[..0]);
      NameChar(opts, s.(live := AllOptions(|opts|), w := 0), goal, 0, i + 1 == |input|);
    } else {
      NameChar(opts, s, goal, j, i + 1 == |input|);
    }
  }

  lemma {:induction false} NameRun(opts: seq<Opt>, input: seq<byte>, i: nat, s: State, goal: nat, j: nat)
    returns (s': State)
    requires ValidTable(opts) && MidName(opts, s, goal, j) && Ok(s, i)
    requires At(input, i, opts[goal].name[j..])
    ensures Named(s', goal)
    ensures var end := i + |opts[goal].name| - j;
      if end == |input| then Parse(opts, input, i, s) == ([OptSet(goal, None)], 0)
      else Parse(opts, input, i, s) == Parse(opts, input, end, s')
    decreases |opts[goal].name| - j
  {
    hide Next, ValidTable;
    var name := opts[goal].name;
    AtChar(input, i, name[j..], 0);
    NameNext(opts, input, i, s, goal, j);
    var step := Next(opts, input, i, s);
    var r := Parse(opts, input, i + 1, step.s);
    assert [] + r.0 == r.0;
    if j + 1 == |name| {
      s' := step.s;
      assert [OptSet(goal, None)] + [] == [OptSet(goal, None)];
    } else {
      assert name[j..] == [name[j]] + name[j + 1..];
      AtSplit(input, i, [name[j]], name[j + 1..]);
      s' := NameRun(opts, input, i + 1, step.s, goal, j + 1);
    }
  }

  // ----- values -----

  /** The state in the middle of the digits that start at `from`. */
  predicate MidDigits(s: State, goal: nat, quote: bool, from: nat, i: nat)
  {
    && s.leap.EatDec? && s.index == goal && s.quote == quote
    && from <= i && s.w == i - from
    && s.start == if i == from then None else Some(from)
  }

  lemma {:induction false} DigitsRun(opts: seq<Opt>, input: seq<byte>, i: nat, end: nat, s: State,
                                     goal: nat, quote: bool, from: nat)
    returns (s': State)
    requires MidDigits(s, goal, quote, from, i) && i <= end < |input|
    requires forall k | i <= k < end :: Digit(input[k])
    ensures MidDigits(s', goal, quote, from, end)
    ensures Parse(opts, input, i, s) == Parse(opts, input, end, s')
    decreases end - i
  {
    if i == end {
      s' := s;
    } else {
      var step := Next(opts, input, i, s);
      var r := Parse(opts, input, i + 1, step.s);
      assert [] + r.0 == r.0;
      s' := DigitsRun(opts, input, i + 1, end, step.s, goal, quote, from);
    }
  }

  /** From the equals sign to the first digit. */
  lemma ValueStart(opts: seq<Opt>, input: seq<byte>, i: nat, s: State, goal: nat, v: Value) returns (s': State)
    requires Named(s, goal) && goal < |opts| && !opts[goal].kind.NoArg? && v.digits != []
    requires At(input, i, PrintValue(Some(v)))
    ensures var from := if v.quoted then i + 2 else i + 1;
      MidDigits(s', goal, v.quoted, from, from) && Parse(opts, input, i, s) == Parse(opts, input, from, s')
  {
    AtChar(input, i, PrintValue(Some(v)), 0);
    AtChar(input, i, PrintValue(Some(v)), 1);
    var step := Next(opts, input, i, s);
    var r := Parse(opts, input, i + 1, step.s);
    assert [] + r.0 == r.0;
    s' := step.s;
    if v.quoted {
      var step2 := Next(opts, input, i + 1, step.s);
      var r2 := Parse(opts, input, i + 2, step2.s);
      assert [] + r2.0 == r2.0;
      s' := step2.s;
    }
  }

  /** A value at the end of the input. */
  lemma ValueAtEnd(opts: seq<Opt>, input: seq<byte>, i: nat, s: State, it: Item)
    requires Fits(opts, it) && it.value.Some? && Named(s, it.index)
    requires At(input, i, PrintValue(it.value)) && i + |PrintValue(it.value)| == |input|
    ensures Parse(opts, input, i, s) == ([Expected(it, true)], 0)
  {
    var v := it.value.value;
    var s1 := ValueStart(opts, input, i, s, it.index, v);
    var from := if v.quoted then i + 2 else i + 1;
    var digits := DigitsAt(input, i, v);
    var end := |input| - 1;
    var s2 := DigitsRun(opts, input, from, end, s1, it.index, v.quoted, from);
    assert input[from..end + 1] == Expected(it, true).text.value by {
      if v.quoted {
        AtChar(input, i, PrintValue(it.value), |PrintValue(it.value)| - 1);
      }
    }
    var r := Parse(opts, input, end + 1, Next(opts, input, end, s2).s);
    assert [Expected(it, true)] + [] == [Expected(it, true)];
  }

  lemma DigitsAt(input: seq<byte>, i: nat, v: Value) returns (from: nat)
    requires v.digits != [] && (forall d | d in v.digits :: 48 <= d <= 57) && At(input, i, PrintValue(Some(v)))
    ensures from == (if v.quoted then i + 2 else i + 1)
    ensures At(input, from, v.digits) && forall k | from <= k < from + |v.digits| :: Digit(input[k])
    ensures from + |v.digits| + (if v.quoted then 1 else 0) == i + |PrintValue(Some(v))|
    ensures input[from..from + |v.digits|] == v.digits
    ensures v.quoted ==> from + |v.digits| < |input| && input[from + |v.digits|] == QUOTE
  {
    from := if v.quoted then i + 2 else i + 1;
    if v.quoted {
      AtSplit(input, i, [EQUALS, QUOTE], v.digits + [QUOTE]);
      AtSplit(input, from, v.digits, [QUOTE]);
      AtChar(input, from + |v.digits|, [QUOTE], 0);
    } else {
      AtSplit(input, i, [EQUALS], v.digits);
    }
    forall k | from <= k < from + |v.digits| ensures Digit(input[k]) {
      AtChar(input, from, v.digits, k - from);
      assert v.digits[k - from] in v.digits;
    }
  }

  /** The step at the end of the digits: the callback, and on to the semicolon. */
  lemma DigitsEnd(opts: seq<Opt>, input: seq<byte>, end: nat, s: State, it: Item, from: nat)
    requires Fits(opts, it) && it.value.Some? && from < end < |input| - 1
    requires MidDigits(s, it.index, it.value.value.quoted, from, end) && input[from..end] == it.value.value.digits
    requires input[end] == if it.value.value.quoted then QUOTE else SEMICOLON
    ensures var step := Next(opts, input, end, s);
      && step.Go? && step.sets == [Expected(it, false)] && step.s.start == Some(from)
      && step.s.leap == if it.value.value.quoted then SeekArgTerm else SeekName
  {
  }

  /** A value before a semicolon that is not the last character. */
  lemma ValueBefore(opts: seq<Opt>, input: seq<byte>, i: nat, s: State, it: Item) returns (s': State)
    requires Fits(opts, it) && it.value.Some? && Named(s, it.index)
    requires At(input, i, PrintValue(it.value))
    requires var end := i + |PrintValue(it.value)|; end + 1 < |input| && input[end] == SEMICOLON
    ensures s'.leap.SeekName? && s'.start.Some? && s'.start.value <= i + |PrintValue(it.value)|
    ensures var r := Parse(opts, input, i + |PrintValue(it.value)| + 1, s');
      Parse(opts, input, i, s).0 == [Expected(it, false)] + r.0 && Parse(opts, input, i, s).1 == r.1
  {
    hide Expected, Next, PrintValue, Digit, Parse;
    var v := it.value.value;
    var s1 := ValueStart(opts, input, i, s, it.index, v);
    var from := DigitsAt(input, i, v);
    var end := from + |v.digits|;
    var s2 := DigitsRun(opts, input, from, end, s1, it.index, v.quoted, from);
    DigitsEnd(opts, input, end, s2, it, from);
    s' := Next(opts, input, end, s2).s;
    GoOn(opts, input, end, s2);
    if v.quoted {
      s' := AfterQuote(opts, input, end + 1, s');
    }
  }

  lemma GoOn(opts: seq<Opt>, input: seq<byte>, i: nat, s: State)
    requires i < |input| && Ok(s, i) && Next(opts, input, i, s).Go?
    ensures var step := Next(opts, input, i, s);
      var r := Parse(opts, input, i + 1, step.s);
      Parse(opts, input, i, s).0 == step.sets + r.0 && Parse(opts, input, i, s).1 == r.1
  {
  }

  lemma AfterQuote(opts: seq<Opt>, input: seq<byte>, i: nat, s: State) returns (s': State)
    requires i < |input| && input[i] == SEMICOLON && s.leap.SeekArgTerm? && Ok(s, i)
    ensures s' == s.(leap := SeekName) && Parse(opts, input, i, s) == Parse(opts, input, i + 1, s')
  {
    s' := s.(leap := SeekName);
    var r := Parse(opts, input, i + 1, s');
    assert [] + r.0 == r.0;
  }

  // ----- lists -----

  /** A plain option before a semicolon. */
  lemma PlainBefore(opts: seq<Opt>, input: seq<byte>, i: nat, s: State, it: Item) returns (s': State)
    requires Fits(opts, it) && it.value.None? && Named(s, it.index)
    requires i + 1 < |input| && input[i] == SEMICOLON
    ensures s'.leap.SeekName? && s'.start.None?
    ensures var r := Parse(opts, input, i + 1, s');
      Parse(opts, input, i, s).0 == [Expected(it, false)] + r.0 && Parse(opts, input, i, s).1 == r.1
  {
    s' := Next(opts, input, i, s).s;
  }

  lemma NameNotEmpty(opts: seq<Opt>, n: nat)
    requires ValidTable(opts) && n < |opts|
    ensures opts[n].name != []
  {
  }

  /** The parts of a printed list that is not empty. */
  lemma Parts(opts: seq<Opt>, input: seq<byte>, i: nat, items: seq<Item>)
    requires ValidTable(opts) && AllFit(opts, items) && items != []
    requires i <= |input| && input[i..] == Print(opts, items)
    ensures var it := items[0];
      var j, text := i + it.pad, opts[it.index].name + PrintValue(it.value);
      && At(input, i, Spaces(it.pad)) && At(input, j, text)
      && (|items| == 1 ==> j + |text| == |input|)
      && (|items| > 1 ==> j + |text| + 1 < |input| && input[j + |text|] == SEMICOLON
                          && input[j + |text| + 1..] == Print(opts, items[1..]))
  {
    hide PrintValue;
    if |items| > 1 {
      NameNotEmpty(opts, items[1].index);
      assert items[1..][0] == items[1];
    }
    var it := items[0];
    var text := opts[it.index].name + PrintValue(it.value);
    var tail := if |items| == 1 then [] else [SEMICOLON] + Print(opts, items[1..]);
    assert opts[it.index].name + (PrintValue(it.value) + tail) == text + tail;
    Cut(input, i, Spaces(it.pad), text, tail);
  }

  lemma Cut(input: seq<byte>, i: nat, a: seq<byte>, b: seq<byte>, c: seq<byte>)
    requires i <= |input| && input[i..] == a + (b + c)
    ensures At(input, i, a) && At(input, i + |a|, b)
    ensures i + |a| + |b| <= |input| && input[i + |a| + |b|..] == c
    ensures c != [] ==> input[i + |a| + |b|] == c[0] && input[i + |a| + |b| + 1..] == c[1..]
  {
    var t := input[i..];
    assert t[..|a|] == a && t[|a|..][..|b|] == b && t[|a|..][|b|..] == c;
    assert input[i + |a| + |b|..] == c;
  }

  /** An option at the end of the input. */
  lemma LastItem(opts: seq<Opt>, input: seq<byte>, i: nat, s: State, it: Item)
    requires ValidTable(opts) && Fits(opts, it) && s.leap.SeekName? && Ok(s, i)
    requires At(input, i, opts[it.index].name + PrintValue(it.value))
    requires i + |opts[it.index].name| + |PrintValue(it.value)| == |input|
    ensures Parse(opts, input, i, s) == ([Expected(it, true)], 0)
  {
    hide Next, Parse, PrintValue, ValidTable;
    var name := opts[it.index].name;
    NameNotEmpty(opts, it.index);
    PlainIsEmpty(it.value);
    AtSplit(input, i, name, PrintValue(it.value));
    assert name[0..] == name;
    var s1 := NameRun(opts, input, i, s, it.index, 0);
    if it.value.Some? {
      ValueAtEnd(opts, input, i + |name|, s1, it);
    }
  }

  /** An option before a semicolon. */
  lemma ItemBefore(opts: seq<Opt>, input: seq<byte>, i: nat, s: State, it: Item) returns (s': State, end: nat)
    requires ValidTable(opts) && Fits(opts, it) && s.leap.SeekName? && Ok(s, i)
    requires At(input, i, opts[it.index].name + PrintValue(it.value))
    requires i + |opts[it.index].name| + |PrintValue(it.value)| + 1 < |input|
    requires input[i + |opts[it.index].name| + |PrintValue(it.value)|] == SEMICOLON
    ensures end == i + |opts[it.index].name| + |PrintValue(it.value)|
    ensures s'.leap.SeekName? && Ok(s', end + 1)
    ensures var r := Parse(opts, input, end + 1, s');
      Parse(opts, input, i, s).0 == [Expected(it, false)] + r.0 && Parse(opts, input, i, s).1 == r.1
  {
    hide Next, Parse, PrintValue, ValidTable;
    var name := opts[it.index].name;
    assert name != [] by { NameNotEmpty(opts, it.index); }
    PlainIsEmpty(it.value);
    end := i + |name| + |PrintValue(it.value)|;
    AtSplit(input, i, name, PrintValue(it.value));
    assert name[0..] == name;
    var s1 := NameRun(opts, input, i, s, it.index, 0);
    if it.value.Some? {
      s' := ValueBefore(opts, input, i + |name|, s1, it);
    } else {
      s' := PlainBefore(opts, input, i + |name|, s1, it);
    }
  }

  lemma ExpectedOne(items: seq<Item>)
    requires |items| == 1
    ensures ExpectedAll(items) == [Expected(items[0], true)]
  {
    assert ExpectedAll(items[1..]) == [];
  }

  /** A list of one option, after its spaces. */
  lemma OneLeft(opts: seq<Opt>, input: seq<byte>, i: nat, s: State, items: seq<Item>)
    requires ValidTable(opts) && AllFit(opts, items) && |items| == 1 && s.leap.SeekName? && Ok(s, i) && i <= |input|
    requires input[i..] == Print(opts, items)
    ensures Parse(opts, input, i, s) == (ExpectedAll(items), 0)
  {
    hide Next, Parse, ValidTable, PrintValue, Print, ExpectedAll, Expected, Spaces;
    var it := items[0];
    assert Fits(opts, it);
    Parts(opts, input, i, items);
    SkipSpaces(opts, input, i, it.pad, s);
    LastItem(opts, input, i + it.pad, s, it);
    ExpectedOne(items);
  }

  /** The first of several options, after its spaces, and where the rest begins. */
  lemma FirstOfMany(opts: seq<Opt>, input: seq<byte>, i: nat, s: State, items: seq<Item>) returns (s': State, end: nat)
    requires ValidTable(opts) && AllFit(opts, items) && |items| > 1 && s.leap.SeekName? && Ok(s, i) && i <= |input|
    requires input[i..] == Print(opts, items)
    ensures end < |input| && s'.leap.SeekName? && Ok(s', end + 1) && input[end + 1..] == Print(opts, items[1..])
    ensures var r := Parse(opts, input, end + 1, s');
      && Parse(opts, input, i, s).0 == [Expected(items[0], false)] + r.0
      && Parse(opts, input, i, s).1 == r.1
  {
    hide Next, Parse, ValidTable, PrintValue, Print, ExpectedAll;
    var it := items[0];
    assert Fits(opts, it);
    Parts(opts, input, i, items);
    SkipSpaces(opts, input, i, it.pad, s);
    var text := opts[it.index].name + PrintValue(it.value);
    assert i + it.pad + |text| == i + it.pad + |opts[it.index].name| + |PrintValue(it.value)|;
    s', end := ItemBefore(opts, input, i + it.pad, s, it);
  }

  lemma {:induction false} RoundTripFrom(opts: seq<Opt>, input: seq<byte>, i: nat, s: State, items: seq<Item>)
    requires ValidTable(opts) && AllFit(opts, items) && s.leap.SeekName? && Ok(s, i) && i <= |input|
    requires input[i..] == Print(opts, items)
    ensures Parse(opts, input, i, s).0 == ExpectedAll(items) && Parse(opts, input, i, s).1 == 0
    decreases |items|
  {
    hide Next, Parse, ValidTable, PrintValue, Print;
    if items == [] {
      PrintNothing(opts);
      NothingLeft(opts, input, i, s);
    } else if |items| == 1 {
      OneLeft(opts, input, i, s, items);
    } else {
      var s', end := FirstOfMany(opts, input, i, s, items);
      RoundTripFrom(opts, input, end + 1, s', items[1..]);
    }
  }

  lemma NothingLeft(opts: seq<Opt>, input: seq<byte>, i: nat, s: State)
    requires i <= |input| && input[i..] == [] && Ok(s, i)
    ensures Parse(opts, input, i, s) == ([], 0)
  {
    assert |input[i..]| == |input| - i;
  }

  lemma PlainIsEmpty(v: Option<Value>)
    ensures PrintValue(v) == [] <==> v.None?
  {
  }

  lemma PrintNothing(opts: seq<Opt>)
    ensures Print(opts, []) == []
  {
  }

  /**
    * For every prefix-free table and every list of options whose values fit their kinds, printing and parsing
    * gives exactly that list of callbacks, in order, and returns 0.
    */
  lemma RoundTrip(opts: seq<Opt>, items: seq<Item>)
    requires ValidTable(opts) && AllFit(opts, items)
    ensures var (sets, ret) := Parse(opts, Print(opts, items), 0, INITIAL);
      sets == ExpectedAll(items) && ret == 0
  {
    assert Print(opts, items)[0..] == Print(opts, items);
    RoundTripFrom(opts, Print(opts, items), 0, INITIAL, items);
  }

  /** The texts of the values are the digits alone, exactly unless the list ends with a quoted value. */
  lemma {:induction false} TextsAreDigits(items: seq<Item>)
    ensures (forall i | 0 <= i < |items| && items[i].value.Some? ::
              i < |ExpectedAll(items)| && ExpectedAll(items)[i].text == Some(items[i].value.value.digits))
       <==> (items == [] || items[|items| - 1].value.None? || !items[|items| - 1].value.value.quoted)
  {
    ExpectedAt(items);
    if items != [] {
      var last := items[|items| - 1];
      if last.value.Some? && last.value.value.quoted {
        assert |ExpectedAll(items)[|items| - 1].text.value| == |last.value.value.digits| + 1;
      }
    }
  }

  lemma {:induction false} ExpectedAt(items: seq<Item>)
    ensures |ExpectedAll(items)| == |items|
    ensures forall i | 0 <= i < |items| :: ExpectedAll(items)[i] == Expected(items[i], i == |items| - 1)
  {
    if items != [] {
      ExpectedAt(items[1..]);
      forall i | 0 <= i < |items| ensures ExpectedAll(items)[i] == Expected(items[i], i == |items| - 1) {
        if i > 0 {
          assert ExpectedAll(items)[i] == ExpectedAll(items[1..])[i - 1];
        }
      }
    }
  }
}
