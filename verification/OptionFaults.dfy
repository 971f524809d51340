/** What lws_ext_parse_options refuses, and what it accepts although it should not. */
module OptionFaults {
  import opened Bytes
  import opened ExtOptions
  import opened OptionRoundTrip

  // ----- a list of options in front of something -----

  /** Options that are each followed by a semicolon. */
  function Front(opts: seq<Opt>, items: seq<Item>): seq<byte>
    requires AllFit(opts, items)
  {
    if items == [] then []
    else
      var it := items[0];
      Spaces(it.pad) + ((opts[it.index].name + PrintValue(it.value)) + ([';' as int] + Front(opts, items[1..])))
  }

  /** Their callbacks. */
  function Sets(items: seq<Item>): seq<OptSet>
  {
    if items == [] then [] else [Expected(items[0], false)] + Sets(items[1..])
  }

  lemma FrontParts(opts: seq<Opt>, items: seq<Item>, tail: seq<byte>)
    requires AllFit(opts, items) && items != []
    ensures var it := items[0];
      Front(opts, items) + tail
      == Spaces(it.pad) +
         ((opts[it.index].name + PrintValue(it.value)) + ([SEMICOLON] + (Front(opts, items[1..]) + tail)))
  {
    hide PrintValue, Spaces;
  }

  lemma FrontItem(opts: seq<Opt>, input: seq<byte>, i: nat, s: State, items: seq<Item>, tail: seq<byte>)
    returns (s': State, j: nat)
    requires ValidTable(opts) && AllFit(opts, items) && items != [] && tail != []
    requires s.leap.SeekName? && Ok(s, i) && i <= |input| && input[i..] == Front(opts, items) + tail
    ensures j <= |input| && s'.leap.SeekName? && Ok(s', j) && input[j..] == Front(opts, items[1..]) + tail
    ensures var r := Parse(opts, input, j, s');
      && Parse(opts, input, i, s).0 == [Expected(items[0], false)] + r.0
      && Parse(opts, input, i, s).1 == r.1
  {
    hide Next, Parse, ValidTable, PrintValue, Front, Expected;
    var it, rest := items[0], Front(opts, items[1..]) + tail;
    assert Fits(opts, it);
    var text := opts[it.index].name + PrintValue(it.value);
    FrontParts(opts, items, tail);
    Cut(input, i, Spaces(it.pad), text, [SEMICOLON] + rest);
    SkipSpaces(opts, input, i, it.pad, s);
    var end;
    s', end := ItemBefore(opts, input, i + it.pad, s, it);
    j := end + 1;
    assert ([SEMICOLON] + rest)[1..] == rest;
  }

  lemma {:induction false} FrontRun(opts: seq<Opt>, input: seq<byte>, i: nat, s: State,
                                    items: seq<Item>, tail: seq<byte>)
    returns (s': State, j: nat)
    requires ValidTable(opts) && AllFit(opts, items) && tail != []
    requires s.leap.SeekName? && Ok(s, i) && i <= |input| && input[i..] == Front(opts, items) + tail
    ensures j <= |input| && s'.leap.SeekName? && Ok(s', j) && input[j..] == tail
    ensures var r := Parse(opts, input, j, s');
      Parse(opts, input, i, s).0 == Sets(items) + r.0 && Parse(opts, input, i, s).1 == r.1
    decreases |items|
  {
    hide Next, Parse, ValidTable;
    if items == [] {
      s', j := s, i;
      assert Front(opts, items) + tail == tail;
      assert Sets(items) + Parse(opts, input, i, s).0 == Parse(opts, input, i, s).0;
    } else {
      var s1, k := FrontItem(opts, input, i, s, items, tail);
      hide Front;
      s', j := FrontRun(opts, input, k, s1, items[1..], tail);
      var r := Parse(opts, input, j, s');
      assert [Expected(items[0], false)] + (Sets(items[1..]) + r.0) == Sets(items) + r.0;
    }
  }

  // ----- names that are no option's -----

  /** Neither does an option's name begin with `u`, nor `u` with an option's name. */
  predicate Unknown(opts: seq<Opt>, u: seq<byte>)
  {
    && u != [] && u[0] != ' ' as int && u[0] != ',' as int
    && forall n | 0 <= n < |opts| :: !(u <= opts[n].name) && !(opts[n].name <= u)
  }

  lemma {:induction false} NarrowMiss(opts: seq<Opt>, p: seq<byte>, c: byte, n: nat)
    requires ValidTable(opts) && n <= |opts| && Sieved(opts, p, c, n) != {}
    requires forall k | 0 <= k < |opts| :: opts[k].name != p && opts[k].name != p + [c]
    ensures var m := Narrow(opts, Sieved(opts, p, c, n), c, |p|, n);
      && m.hit.None? && (m.empty <==> Candidates(opts, p + [c]) == {})
      && (!m.empty ==> m.live == Candidates(opts, p + [c]))
    decreases |opts| - n
  {
    var before := Sieved(opts, p, c, n);
    if n == |opts| {
      assert before == Candidates(opts, p + [c]);
      return;
    }
    hide ValidTable, CharAt;
    if n in before {
      CandidateName(opts, p, c, n);
      if opts[n].name[|p|] == c {
        SieveKeeps(opts, p, c, n);
        NarrowMiss(opts, p, c, n + 1);
      } else {
        SieveDrops(opts, p, c, n);
        if before - {n} == {} {
          NoneLeft(opts, p, c, n);
        } else {
          NarrowMiss(opts, p, c, n + 1);
        }
      }
    } else {
      SieveKeeps(opts, p, c, n);
      NarrowMiss(opts, p, c, n + 1);
    }
  }

  lemma NoneLeft(opts: seq<Opt>, p: seq<byte>, c: byte, n: nat)
    requires n < |opts| && Sieved(opts, p, c, n + 1) == {}
    ensures Candidates(opts, p + [c]) == {}
  {
    forall k | k in Candidates(opts, p + [c]) ensures k in Sieved(opts, p, c, n + 1) {
      assert p <= p + [c];
    }
    assert Candidates(opts, p + [c]) <= Sieved(opts, p, c, n + 1);
  }

  /** The state after the first `j` characters of an unknown name. */
  predicate MidUnknown(opts: seq<Opt>, s: State, u: seq<byte>, j: nat)
  {
    && j < |u| && Candidates(opts, u[..j]) != {}
    && if j == 0 then s.leap.SeekName?
       else s.leap.EatName? && s.live == Candidates(opts, u[..j]) && s.w == j
  }

  lemma UnknownNext(opts: seq<Opt>, input: seq<byte>, i: nat, s: State, u: seq<byte>, j: nat)
    requires ValidTable(opts) && Unknown(opts, u) && MidUnknown(opts, s, u, j) && Ok(s, i)
    requires i < |input| && input[i] == u[j]
    ensures var step := Next(opts, input, i, s);
      if Candidates(opts, u[..j + 1]) == {} then step == Bad([])
      else step.Go? && step.sets == [] && MidUnknown(opts, step.s, u, j + 1) && step.s.start.None?
  {
    var p, c := u[..j], u[j];
    assert p + [c] == u[..j + 1];
    assert p <= u && p + [c] <= u;
    assert Sieved(opts, p, c, 0) == Candidates(opts, p);
    NarrowMiss(opts, p, c, 0);
    if j == 0 {
      assert AllOptions(|opts|) == Candidates(opts, p);
    }
    if j + 1 == |u| {
      assert u[..j + 1] == u;
      assert Candidates(opts, u) == {};
    }
  }

  lemma {:induction false} UnknownRun(opts: seq<Opt>, input: seq<byte>, i: nat, s: State, u: seq<byte>, j: nat)
    requires ValidTable(opts) && Unknown(opts, u) && MidUnknown(opts, s, u, j) && Ok(s, i)
    requires At(input, i, u[j..])
    ensures Parse(opts, input, i, s) == ([], -1)
    decreases |u| - j
  {
    hide Next, ValidTable, Unknown;
    AtChar(input, i, u[j..], 0);
    UnknownNext(opts, input, i, s, u, j);
    var step := Next(opts, input, i, s);
    if step.Go? {
      assert u[j..] == [u[j]] + u[j + 1..];
      AtSplit(input, i, [u[j]], u[j + 1..]);
      UnknownRun(opts, input, i + 1, step.s, u, j + 1);
      assert [] + Parse(opts, input, i + 1, step.s).0 == [];
    }
  }

  // ----- behind a name -----

  /** A list cannot be parsed for one of these reasons, here up to the character that tells. */
  datatype Fault =
    | NoSuch(name: seq<byte>)                            // no option
    | Stray(index: nat, c: byte)                         // a name, and something that cannot follow it
    | Unwanted(index: nat)                               // a value for an option that takes none
    | Missing(index: nat)                                // no value for an option that needs one
    | NoDigit(index: nat, quoted: bool, c: byte)         // a value that does not begin with a digit
    | Unclosed(index: nat, digits: seq<byte>, c: byte)   // a quoted value that does not end with a quote
    | Trailing(item: Item, c: byte)                      // a value, and something that cannot follow it

  predicate IsDigit(c: byte) { 48 <= c <= 57 }

  /** What follows the fault, `more`, only matters where the last character of the input is taken for the end. */
  predicate Faulty(opts: seq<Opt>, f: Fault, more: seq<byte>)
  {
    match f
    case NoSuch(name) => opts != [] && Unknown(opts, name)
    case Stray(n, c) =>
      n < |opts| && c != ' ' as int && c != ',' as int && c != ';' as int && c != '=' as int && more != []
    case Unwanted(n) => n < |opts| && opts[n].kind.NoArg? && more != []
    case Missing(n) => n < |opts| && opts[n].kind.Dec?
    case NoDigit(n, _, c) => n < |opts| && !opts[n].kind.NoArg? && !IsDigit(c) && c != '"' as int
    case Unclosed(n, digits, c) =>
      && n < |opts| && !opts[n].kind.NoArg? && digits != [] && (forall d | d in digits :: IsDigit(d))
      && !IsDigit(c) && c != '"' as int && more != []
    case Trailing(it, c) =>
      && Fits(opts, it) && it.value.Some? && c != ' ' as int && c != ',' as int && c != ';' as int
      && (!it.value.value.quoted ==> !IsDigit(c) && more != [])
  }

  function FaultText(opts: seq<Opt>, f: Fault, more: seq<byte>): seq<byte>
    requires Faulty(opts, f, more)
  {
    match f
    case NoSuch(name) => name + more
    case Stray(n, c) => opts[n].name + ([c] + more)
    case Unwanted(n) => opts[n].name + (['=' as int] + more)
    case Missing(n) => opts[n].name + ([';' as int] + more)
    case NoDigit(n, quoted, c) =>
      opts[n].name + ((if quoted then ['=' as int, '"' as int, c] else ['=' as int, c]) + more)
    case Unclosed(n, digits, c) => opts[n].name + ((['=' as int, '"' as int] + digits) + ([c] + more))
    case Trailing(it, c) => opts[it.index].name + (PrintValue(it.value) + ([c] + more))
  }

  function FaultSets(f: Fault): seq<OptSet>
  {
    if f.Trailing? then [Expected(f.item, false)] else []
  }

  lemma Followed(input: seq<byte>, i: nat, a: seq<byte>, b: seq<byte>)
    requires i <= |input| && input[i..] == a + b
    ensures At(input, i, a) && i + |a| <= |input| && input[i + |a|..] == b
    ensures forall k | 0 <= k < |a| :: input[i + k] == a[k]
    ensures b != [] ==> i + |a| < |input| && input[i + |a|] == b[0]
  {
    var t := input[i..];
    assert t[..|a|] == a && t[|a|..] == b;
    forall k | 0 <= k < |a| ensures input[i + k] == a[k] {
      assert t[k] == input[i + k];
    }
  }

  /** A name, and the lookout for its value. */
  lemma NamePart(opts: seq<Opt>, input: seq<byte>, i: nat, s: State, n: nat, rest: seq<byte>)
    returns (s': State, j: nat)
    requires ValidTable(opts) && n < |opts| && s.leap.SeekName? && Ok(s, i) && i <= |input| && rest != []
    requires input[i..] == opts[n].name + rest
    ensures Named(s', n) && j < |input| && input[j..] == rest && Parse(opts, input, i, s) == Parse(opts, input, j, s')
  {
    hide Parse, ValidTable;
    Followed(input, i, opts[n].name, rest);
    NameNotEmpty(opts, n);
    assert opts[n].name[0..] == opts[n].name;
    s' := NameRun(opts, input, i, s, n, 0);
    j := i + |opts[n].name|;
  }

  /** A fault right behind a name. */
  lemma NameFault(opts: seq<Opt>, input: seq<byte>, j: nat, s: State, f: Fault, more: seq<byte>)
    requires Faulty(opts, f, more) && (f.Stray? || f.Unwanted? || f.Missing?) && Named(s, f.index)
    requires j < |input|
    requires input[j..] == [if f.Stray? then f.c else if f.Unwanted? then '=' as int else ';' as int] + more
    ensures Parse(opts, input, j, s) == ([], -1)
  {
    assert |input[j..]| == 1 + |more|;
    assert input[j] == input[j..][0];
  }

  /** From the equals sign to the first character of a value. */
  lemma ValueOpens(opts: seq<Opt>, input: seq<byte>, j: nat, s: State, n: nat, quoted: bool, rest: seq<byte>)
    returns (s': State, k: nat)
    requires n < |opts| && !opts[n].kind.NoArg? && Named(s, n) && j < |input| && rest != []
    requires input[j..] == (if quoted then ['=' as int, '"' as int] else ['=' as int]) + rest
    ensures k == j + (if quoted then 2 else 1) && k < |input| && input[k..] == rest
    ensures MidDigits(s', n, quoted, k, k) && Parse(opts, input, j, s) == Parse(opts, input, k, s')
  {
    Followed(input, j, if quoted then ['=' as int, '"' as int] else ['=' as int], rest);
    k := j + if quoted then 2 else 1;
    s' := Next(opts, input, j, s).s;
    assert [] + Parse(opts, input, j + 1, s').0 == Parse(opts, input, j + 1, s').0;
    if quoted {
      s' := Next(opts, input, j + 1, s').s;
      assert [] + Parse(opts, input, j + 2, s').0 == Parse(opts, input, j + 2, s').0;
    }
  }

  lemma NoDigitFault(opts: seq<Opt>, input: seq<byte>, k: nat, s: State, n: nat, quoted: bool)
    requires MidDigits(s, n, quoted, k, k) && k < |input| && !IsDigit(input[k]) && input[k] != '"' as int
    ensures Parse(opts, input, k, s) == ([], -1)
  {
  }

  lemma UnclosedFault(opts: seq<Opt>, input: seq<byte>, from: nat, end: nat, s: State, n: nat)
    requires MidDigits(s, n, true, from, end) && from < end && end + 1 < |input|
    requires !IsDigit(input[end]) && input[end] != '"' as int
    ensures Parse(opts, input, end, s) == ([], -1)
  {
  }

  /** Digits up to a character that is none. */
  lemma DigitsPart(opts: seq<Opt>, input: seq<byte>, k: nat, s: State, n: nat, quoted: bool,
                   digits: seq<byte>, rest: seq<byte>)
    returns (s': State, end: nat)
    requires MidDigits(s, n, quoted, k, k) && k <= |input| && rest != [] && (forall d | d in digits :: IsDigit(d))
    requires input[k..] == digits + rest
    ensures end == k + |digits| < |input| && input[k..end] == digits && input[end..] == rest
    ensures MidDigits(s', n, quoted, k, end) && Parse(opts, input, k, s) == Parse(opts, input, end, s')
  {
    Followed(input, k, digits, rest);
    end := k + |digits|;
    forall m | k <= m < end ensures Digit(input[m]) {
      assert input[k + (m - k)] == digits[m - k] && digits[m - k] in digits;
    }
    hide Parse;
    s' := DigitsRun(opts, input, k, end, s, n, quoted, k);
  }

  lemma TrailingFault(opts: seq<Opt>, input: seq<byte>, from: nat, end: nat, s: State, it: Item,
                      c: byte, more: seq<byte>)
    requires Faulty(opts, Trailing(it, c), more)
    requires var v := it.value.value;
      && MidDigits(s, it.index, v.quoted, from, end) && from < end < |input| && input[from..end] == v.digits
      && input[end..] == (if v.quoted then ['"' as int, c] else [c]) + more
    ensures Parse(opts, input, end, s) == ([Expected(it, false)], -1)
  {
    var v := it.value.value;
    Followed(input, end, if v.quoted then ['"' as int, c] else [c], more);
    if v.quoted {
      var step := Next(opts, input, end, s);
      assert step.Go? && step.sets == [Expected(it, false)];
      assert Parse(opts, input, end + 1, step.s) == ([], -1);
      assert [Expected(it, false)] + [] == [Expected(it, false)];
    }
  }

  /** A fault, from the first character of its name on. */
  lemma FaultRun(opts: seq<Opt>, input: seq<byte>, i: nat, s: State, f: Fault, more: seq<byte>)
    requires ValidTable(opts) && Faulty(opts, f, more) && s.leap.SeekName? && Ok(s, i) && i <= |input|
    requires input[i..] == FaultText(opts, f, more)
    ensures Parse(opts, input, i, s) == (FaultSets(f), -1)
  {
    hide Parse, Next, ValidTable, PrintValue;
    match f
    case NoSuch(name) =>
      Followed(input, i, name, more);
      assert name[0..] == name && Candidates(opts, name[..0]) != {} by { AnyOption(opts, name); }
      UnknownRun(opts, input, i, s, name, 0);
    case Stray(n, c) =>
      var s1, j := NamePart(opts, input, i, s, n, [c] + more);
      NameFault(opts, input, j, s1, f, more);
    case Unwanted(n) =>
      var s1, j := NamePart(opts, input, i, s, n, ['=' as int] + more);
      NameFault(opts, input, j, s1, f, more);
    case Missing(n) =>
      var s1, j := NamePart(opts, input, i, s, n, [';' as int] + more);
      NameFault(opts, input, j, s1, f, more);
    case NoDigit(n, quoted, c) =>
      var rest := (if quoted then ['=' as int, '"' as int, c] else ['=' as int, c]) + more;
      assert rest == (if quoted then ['=' as int, '"' as int] else ['=' as int]) + ([c] + more);
      var s1, j := NamePart(opts, input, i, s, n, rest);
      var s2, k := ValueOpens(opts, input, j, s1, n, quoted, [c] + more);
      assert input[k] == input[k..][0];
      NoDigitFault(opts, input, k, s2, n, quoted);
    case Unclosed(n, digits, c) =>
      var rest := (['=' as int, '"' as int] + digits) + ([c] + more);
      assert rest == ['=' as int, '"' as int] + (digits + ([c] + more));
      var s1, j := NamePart(opts, input, i, s, n, rest);
      var s2, k := ValueOpens(opts, input, j, s1, n, true, digits + ([c] + more));
      var s3, end := DigitsPart(opts, input, k, s2, n, true, digits, [c] + more);
      assert input[end] == input[end..][0] && |input[end..]| == 1 + |more|;
      UnclosedFault(opts, input, k, end, s3, n);
    case Trailing(it, c) => TrailingRun(opts, input, i, s, it, c, more);
  }

  lemma TrailingRun(opts: seq<Opt>, input: seq<byte>, i: nat, s: State, it: Item, c: byte, more: seq<byte>)
    requires ValidTable(opts) && Faulty(opts, Trailing(it, c), more) && s.leap.SeekName? && Ok(s, i) && i <= |input|
    requires input[i..] == FaultText(opts, Trailing(it, c), more)
    ensures Parse(opts, input, i, s) == ([Expected(it, false)], -1)
  {
    hide Parse, Next, ValidTable;
    var v := it.value.value;
    var tail := (if v.quoted then ['"' as int, c] else [c]) + more;
    var rest := PrintValue(it.value) + ([c] + more);
    assert rest == (if v.quoted then ['=' as int, '"' as int] else ['=' as int]) + (v.digits + tail);
    hide PrintValue;
    var s1, j := NamePart(opts, input, i, s, it.index, rest);
    var s2, k := ValueOpens(opts, input, j, s1, it.index, v.quoted, v.digits + tail);
    var s3, end := DigitsPart(opts, input, k, s2, it.index, v.quoted, v.digits, tail);
    TrailingFault(opts, input, k, end, s3, it, c, more);
  }

  lemma AnyOption(opts: seq<Opt>, u: seq<byte>)
    requires opts != []
    ensures Candidates(opts, u[..0]) != {}
  {
    assert 0 in Candidates(opts, u[..0]);
  }

  /**
    * For every prefix-free table, a list of options and then a fault, whatever stands behind it: the callbacks are
    * those of the list, and of a value that is complete, and the parser returns -1.
    */
  lemma Refused(opts: seq<Opt>, items: seq<Item>, pad: nat, f: Fault, more: seq<byte>)
    requires ValidTable(opts) && AllFit(opts, items) && Faulty(opts, f, more)
    ensures var (sets, ret) := Parse(opts, Front(opts, items) + (Spaces(pad) + FaultText(opts, f, more)), 0, INITIAL);
      sets == Sets(items) + FaultSets(f) && ret == -1
  {
    hide Parse, Next, ValidTable, Faulty, Front, FaultText, Sets;
    var tail := Spaces(pad) + FaultText(opts, f, more);
    var input := Front(opts, items) + tail;
    FaultNotEmpty(opts, f, more);
    assert input[0..] == input;
    var s, j := FrontRun(opts, input, 0, INITIAL, items, tail);
    j := AfterPad(opts, input, j, s, pad, FaultText(opts, f, more));
    FaultRun(opts, input, j, s, f, more);
  }

  lemma FaultNotEmpty(opts: seq<Opt>, f: Fault, more: seq<byte>)
    requires Faulty(opts, f, more)
    ensures FaultText(opts, f, more) != []
  {
  }

  // ----- what is accepted all the same -----

  /** A name at the very end of the input is set without a value, also if it needs one. */
  lemma NameAtEnd(opts: seq<Opt>, items: seq<Item>, pad: nat, n: nat)
    requires ValidTable(opts) && AllFit(opts, items) && n < |opts|
    ensures var (sets, ret) := Parse(opts, Front(opts, items) + (Spaces(pad) + opts[n].name), 0, INITIAL);
      sets == Sets(items) + [OptSet(n, None)] && ret == 0
  {
    hide Parse, Next, ValidTable, Front, Sets, Spaces;
    var name := opts[n].name;
    NameNotEmpty(opts, n);
    var input := Front(opts, items) + (Spaces(pad) + name);
    assert input[0..] == input;
    var s, j := FrontRun(opts, input, 0, INITIAL, items, Spaces(pad) + name);
    j := AfterPad(opts, input, j, s, pad, name);
    LastName(opts, input, j, s, n);
  }

  lemma AfterPad(opts: seq<Opt>, input: seq<byte>, i: nat, s: State, pad: nat, rest: seq<byte>) returns (j: nat)
    requires s.leap.SeekName? && Ok(s, i) && i <= |input| && input[i..] == Spaces(pad) + rest
    ensures i <= j <= |input| && input[j..] == rest
    ensures Parse(opts, input, i, s) == Parse(opts, input, j, s)
  {
    hide Parse;
    j := i + pad;
    Followed(input, i, Spaces(pad), rest);
    SkipSpaces(opts, input, i, pad, s);
  }

  lemma LastName(opts: seq<Opt>, input: seq<byte>, j: nat, s: State, n: nat)
    requires ValidTable(opts) && n < |opts| && s.leap.SeekName? && Ok(s, j)
    requires j <= |input| && input[j..] == opts[n].name
    ensures Parse(opts, input, j, s) == ([OptSet(n, None)], 0)
  {
    NameNotEmpty(opts, n);
    hide Parse, Next, ValidTable, Candidates;
    var name := opts[n].name;
    assert name[0..] == name && |input[j..]| == |input| - j;
    assert input[j..j + |name|] == input[j..];
    var s' := NameRun(opts, input, j, s, n, 0);
  }

  /** The state behind a list of options and one more name. */
  lemma BehindName(opts: seq<Opt>, items: seq<Item>, pad: nat, n: nat, rest: seq<byte>) returns (s: State, j: nat)
    requires ValidTable(opts) && AllFit(opts, items) && n < |opts| && rest != []
    ensures var input := Front(opts, items) + (Spaces(pad) + (opts[n].name + rest));
      && Named(s, n) && j < |input| && input[j..] == rest
      && Parse(opts, input, 0, INITIAL).0 == Sets(items) + Parse(opts, input, j, s).0
      && Parse(opts, input, 0, INITIAL).1 == Parse(opts, input, j, s).1
  {
    hide Parse, Next, ValidTable, Front, Sets, Spaces;
    var tail := Spaces(pad) + (opts[n].name + rest);
    var input := Front(opts, items) + tail;
    assert input[0..] == input;
    s, j := FrontRun(opts, input, 0, INITIAL, items, tail);
    j := AfterPad(opts, input, j, s, pad, opts[n].name + rest);
    s, j := NamePart(opts, input, j, s, n, rest);
  }

  /**
    * One character between a name and the end of the input: a space or a comma, and the option is not set; anything
    * else, and it is set without a value, or refused if it needs one.
    */
  lemma OneMoreAtEnd(opts: seq<Opt>, items: seq<Item>, pad: nat, n: nat, c: byte)
    requires ValidTable(opts) && AllFit(opts, items) && n < |opts|
    ensures var (sets, ret) := Parse(opts, Front(opts, items) + (Spaces(pad) + (opts[n].name + [c])), 0, INITIAL);
      if c == ' ' as int || c == ',' as int then sets == Sets(items) && ret == 0
      else if opts[n].kind.Dec? then sets == Sets(items) && ret == -1
      else sets == Sets(items) + [OptSet(n, None)] && ret == 0
  {
    var s, j := BehindName(opts, items, pad, n, [c]);
    var input := Front(opts, items) + (Spaces(pad) + (opts[n].name + [c]));
    hide ValidTable, Front, Sets, Spaces;
    LastChar(opts, input, j, s, n, c);
    assert Sets(items) + [] == Sets(items);
  }

  lemma LastChar(opts: seq<Opt>, input: seq<byte>, j: nat, s: State, n: nat, c: byte)
    requires n < |opts| && Named(s, n) && j < |input| && input[j..] == [c]
    ensures Parse(opts, input, j, s)
         == if c == ' ' as int || c == ',' as int then ([], 0)
            else if opts[n].kind.Dec? then ([], -1)
            else ([OptSet(n, None)], 0)
  {
    assert |input[j..]| == |input| - j == 1 && input[j] == input[j..][0] == c;
    var step := Next(opts, input, j, s);
    if step.Go? {
      assert Parse(opts, input, j + 1, step.s) == ([], 0);
      assert step.sets + [] == step.sets;
      assert c == ' ' as int || step.sets == [OptSet(n, None)];
    }
  }

  /** A character that is no digit, between a value and the end of the input, is taken into the value's text. */
  lemma OneMoreInValue(opts: seq<Opt>, items: seq<Item>, it: Item, c: byte)
    requires ValidTable(opts) && AllFit(opts, items) && Fits(opts, it) && it.value.Some? && !(48 <= c <= 57)
    ensures var v := it.value.value;
      var rest := (if v.quoted then ['=' as int, '"' as int] else ['=' as int]) + (v.digits + [c]);
      var (sets, ret) := Parse(opts, Front(opts, items) + (Spaces(it.pad) + (opts[it.index].name + rest)), 0, INITIAL);
      sets == Sets(items) + [OptSet(it.index, Some(v.digits + [c]))] && ret == 0
  {
    hide ValidTable, Front, Sets, Parse, Spaces;
    var v := it.value.value;
    var rest := (if v.quoted then ['=' as int, '"' as int] else ['=' as int]) + (v.digits + [c]);
    var s, j := BehindName(opts, items, it.pad, it.index, rest);
    var input := Front(opts, items) + (Spaces(it.pad) + (opts[it.index].name + rest));
    var s2, k := ValueOpens(opts, input, j, s, it.index, v.quoted, v.digits + [c]);
    var s3, end := DigitsPart(opts, input, k, s2, it.index, v.quoted, v.digits, [c]);
    LastInValue(opts, input, k, end, s3, it, c);
  }

  lemma LastInValue(opts: seq<Opt>, input: seq<byte>, from: nat, end: nat, s: State, it: Item, c: byte)
    requires it.value.Some? && from < end < |input| && !(48 <= c <= 57)
    requires MidDigits(s, it.index, it.value.value.quoted, from, end) && input[from..end] == it.value.value.digits
    requires input[end..] == [c]
    ensures Parse(opts, input, end, s) == ([OptSet(it.index, Some(it.value.value.digits + [c]))], 0)
  {
    assert |input[end..]| == |input| - end == 1 && input[end] == input[end..][0] == c;
    assert input[from..end + 1] == it.value.value.digits + [c];
    var step := Next(opts, input, end, s);
    assert step.Go? && step.sets == [OptSet(it.index, Some(it.value.value.digits + [c]))];
    assert Parse(opts, input, end + 1, step.s) == ([], 0);
    assert step.sets + [] == step.sets;
  }

  /** The input ends at a comma; an option without a value right before it is not set. */
  lemma CommaAfterName(opts: seq<Opt>, items: seq<Item>, pad: nat, n: nat, gap: nat, more: seq<byte>)
    requires ValidTable(opts) && AllFit(opts, items) && n < |opts|
    ensures var rest := Spaces(gap) + ([',' as int] + more);
      var (sets, ret) := Parse(opts, Front(opts, items) + (Spaces(pad) + (opts[n].name + rest)), 0, INITIAL);
      sets == Sets(items) && ret == 0
  {
    var rest := Spaces(gap) + ([',' as int] + more);
    var s, j := BehindName(opts, items, pad, n, rest);
    var input := Front(opts, items) + (Spaces(pad) + (opts[n].name + rest));
    hide ValidTable, Front, Sets, Parse, Spaces;
    CommaStops(opts, input, j, s, gap, more);
    assert Sets(items) + [] == Sets(items);
  }

  /** So does a list of options with nothing behind its last semicolon but a comma. */
  lemma CommaForName(opts: seq<Opt>, items: seq<Item>, pad: nat, more: seq<byte>)
    requires ValidTable(opts) && AllFit(opts, items)
    ensures var (sets, ret) := Parse(opts, Front(opts, items) + (Spaces(pad) + ([',' as int] + more)), 0, INITIAL);
      sets == Sets(items) && ret == 0
  {
    hide Parse, Next, ValidTable, Front, Sets, Spaces;
    var tail := Spaces(pad) + ([',' as int] + more);
    var input := Front(opts, items) + tail;
    assert input[0..] == input;
    var s, j := FrontRun(opts, input, 0, INITIAL, items, tail);
    CommaStops(opts, input, j, s, pad, more);
    assert Sets(items) + [] == Sets(items);
  }

  lemma CommaStops(opts: seq<Opt>, input: seq<byte>, j: nat, s: State, gap: nat, more: seq<byte>)
    requires Ok(s, j) && (s.leap.SeekVal? || s.leap.SeekArgTerm? || s.leap.SeekName?)
    requires j <= |input| && input[j..] == Spaces(gap) + ([',' as int] + more)
    ensures Parse(opts, input, j, s) == ([], 0)
  {
    Cut(input, j, Spaces(gap), [',' as int], more);
    AtChar(input, j + |Spaces(gap)|, [',' as int], 0);
    SkipSpaces(opts, input, j, gap, s);
  }

  /** One with a quoted value is. */
  lemma CommaAfterValue(opts: seq<Opt>, items: seq<Item>, it: Item, gap: nat, more: seq<byte>)
    requires ValidTable(opts) && AllFit(opts, items) && Fits(opts, it) && it.value.Some? && it.value.value.quoted
    ensures var rest := PrintValue(it.value) + (Spaces(gap) + ([',' as int] + more));
      var (sets, ret) := Parse(opts, Front(opts, items) + (Spaces(it.pad) + (opts[it.index].name + rest)), 0, INITIAL);
      sets == Sets(items) + [Expected(it, false)] && ret == 0
  {
    hide ValidTable, Front, Sets, Parse, Spaces;
    var v, tail := it.value.value, Spaces(gap) + ([',' as int] + more);
    var rest := PrintValue(it.value) + tail;
    assert rest == ['=' as int, '"' as int] + (v.digits + (['"' as int] + tail));
    var s, j := BehindName(opts, items, it.pad, it.index, rest);
    var input := Front(opts, items) + (Spaces(it.pad) + (opts[it.index].name + rest));
    hide PrintValue, Expected;
    var s2, k := ValueOpens(opts, input, j, s, it.index, true, v.digits + (['"' as int] + tail));
    var s3, end := DigitsPart(opts, input, k, s2, it.index, true, v.digits, ['"' as int] + tail);
    QuoteThenComma(opts, input, k, end, s3, it, gap, more);
  }

  lemma QuoteThenComma(opts: seq<Opt>, input: seq<byte>, from: nat, end: nat, s: State, it: Item,
                       gap: nat, more: seq<byte>)
    requires Fits(opts, it) && it.value.Some? && it.value.value.quoted && from < end < |input|
    requires MidDigits(s, it.index, true, from, end) && input[from..end] == it.value.value.digits
    requires input[end..] == ['"' as int] + (Spaces(gap) + ([',' as int] + more))
    ensures Parse(opts, input, end, s) == ([Expected(it, false)], 0)
  {
    hide Spaces, Parse;
    Followed(input, end, ['"' as int], Spaces(gap) + ([',' as int] + more));
    var step := Next(opts, input, end, s);
    assert step.Go? && step.sets == [Expected(it, false)] && step.s.leap.SeekArgTerm?;
    hide Next;
    CommaStops(opts, input, end + 1, step.s, gap, more);
    GoOn(opts, input, end, s);
    assert [Expected(it, false)] + [] == [Expected(it, false)];
  }
}
