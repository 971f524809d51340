/**
  * The extension option parser (lws_ext_parse_options): names are matched against a whole table at once by
  * a set of candidates, and what is printed from a list of options parses back to exactly that list.
  */
module ExtOptions {
  import opened Bytes

  const SPACE: byte := 32
  const QUOTE: byte := 34
  const COMMA: byte := 44
  const SEMICOLON: byte := 59
  const EQUALS: byte := 61

  predicate Digit(c: byte) { 48 <= c <= 57 }

  /** EXTARG_NONE, EXTARG_DEC, EXTARG_OPT_DEC. */
  datatype Kind = NoArg | Dec | OptDec

  datatype Opt = Opt(name: seq<byte>, kind: Kind)

  /** One LWS_EXT_CB_OPTION_SET: the option's index and the text of its value, if it has one. */
  datatype OptSet = OptSet(index: nat, text: Option<seq<byte>>)

  datatype Leap = SeekName | EatName | SeekVal | EatDec | SeekArgTerm

  /** The parser's variables; the match map is the set of options whose name can still be the one under way. */
  datatype State = State(leap: Leap, live: set<nat>, w: nat, index: nat, start: Option<nat>, quote: bool)

  /** Names are C strings: not empty, no NUL; their first character is not taken for a separator. */
  predicate ValidTable(opts: seq<Opt>)
  {
    && |opts| <= 30
    && (forall i | 0 <= i < |opts| :: opts[i].name != [] && 0 !in opts[i].name)
    && (forall i | 0 <= i < |opts| :: opts[i].name[0] != SPACE && opts[i].name[0] != COMMA)
    && (forall i, j | 0 <= i < |opts| && 0 <= j < |opts| && i != j :: !(opts[i].name <= opts[j].name))
  }

  // ----- matching one character of a name -----

  function CharAt(name: seq<byte>, w: nat): byte { if w < |name| then name[w] else 0 }

  /** The candidates left, the option whose name ends here, and whether no candidate is left. */
  datatype Match = Match(live: set<nat>, hit: Option<nat>, empty: bool)

  /** The scan of the match map from option `n` on, for character `c` at position `w`. */
  function Narrow(opts: seq<Opt>, live: set<nat>, c: byte, w: nat, n: nat): Match
    decreases |opts| - n
  {
    if n >= |opts| then Match(live, None, false)
    else if n !in live then Narrow(opts, live, c, w, n + 1)
    else if c == CharAt(opts[n].name, w) then
      if CharAt(opts[n].name, w + 1) == 0 then Match(live, Some(n), false)
      else Narrow(opts, live, c, w, n + 1)
    else if live - {n} == {} then Match({}, None, true)
    else Narrow(opts, live - {n}, c, w, n + 1)
  }

  // ----- one character of input -----

  /** The loop goes on, ends at a comma, or returns -1; callbacks may have been made before. */
  datatype Step =
    | Go(s: State, sets: seq<OptSet>)
    | Stop(sets: seq<OptSet>)
    | Bad(sets: seq<OptSet>)

  /** LEAPS_SEEK_ARG_TERM. */
  function ArgTerm(s: State, c: byte, sets: seq<OptSet>): Step
  {
    if c == SPACE then Go(s, sets)
    else if c == SEMICOLON then Go(s.(leap := SeekName), sets)
    else if c == COMMA then Stop(sets)
    else Bad(sets)
  }

  /** set_arg: the callback, and what follows it. */
  function SetArg(s: State, c: byte, last: bool, text: Option<seq<byte>>): Step
  {
    var sets := [OptSet(s.index, text)];
    if last || (s.quote && c == QUOTE) then Go(s, sets) else ArgTerm(s, c, sets)
  }

  function OnName(opts: seq<Opt>, s: State, c: byte, last: bool): Step
  {
    var s' := s.(start := None, quote := false);
    var m := Narrow(opts, s.live, c, s.w, 0);
    if m.empty then Bad([])
    else if m.hit.Some? then
      var hit := s'.(leap := SeekVal, live := m.live, index := m.hit.value);
      if last then SetArg(hit, c, last, None) else Go(hit.(w := s.w + 1), [])
    else Go(s'.(leap := EatName, live := m.live, w := s.w + 1), [])
  }

  function OnValue(opts: seq<Opt>, s: State, c: byte, last: bool): Step
  {
    var kind := if s.index < |opts| then opts[s.index].kind else NoArg;
    if c == SPACE then Go(s, [])
    else if c == COMMA then Stop([])
    else if c == SEMICOLON || last then
      if kind.Dec? then Bad([]) else SetArg(s.(leap := SeekName), c, last, None)
    else if c == EQUALS then
      if kind.NoArg? then Bad([]) else Go(s.(leap := EatDec, w := 0, quote := false), [])
    else Bad([])
  }

  function OnDec(input: seq<byte>, i: nat, s: State): Step
    requires i < |input| && (s.start.Some? ==> s.start.value <= i)
  {
    var c, last := input[i], i + 1 == |input|;
    var s' := if !Digit(c) then s else s.(start := if s.w == 0 then Some(i) else s.start, w := s.w + 1);
    if Digit(c) && !last then Go(s', [])
    else if s'.w == 0 && c == QUOTE then Go(s'.(quote := true), [])
    else if s'.w == 0 || (s'.quote && c != QUOTE && !last) then Bad([])
    else
      var end := if last then i + 1 else i;
      var text := if s'.start.Some? then Some(input[s'.start.value..end]) else None;
      SetArg(s'.(leap := SeekArgTerm), c, last, text)
  }

  /** (1 << count_options) - 1 */
  function AllOptions(count: nat): (r: set<nat>)
    ensures forall n :: n in r <==> 0 <= n < count
  {
    if count == 0 then {} else AllOptions(count - 1) + {count - 1}
  }

  function Next(opts: seq<Opt>, input: seq<byte>, i: nat, s: State): (step: Step)
    requires i < |input| && (s.start.Some? ==> s.start.value <= i)
    ensures step.Go? && step.s.start.Some? ==> step.s.start.value <= i
  {
    var c, last := input[i], i + 1 == |input|;
    match s.leap
    case SeekName =>
      if c == SPACE then Go(s, [])
      else if c == COMMA then Stop([])
      else OnName(opts, s.(live := AllOptions(|opts|), w := 0), c, last)
    case EatName => OnName(opts, s, c, last)
    case SeekVal => OnValue(opts, s, c, last)
    case EatDec => OnDec(input, i, s)
    case SeekArgTerm => ArgTerm(s, c, [])
  }

  /** The callbacks made from position `i` on, and the value returned. */
  function Parse(opts: seq<Opt>, input: seq<byte>, i: nat, s: State): (seq<OptSet>, int)
    requires i <= |input| && (s.start.Some? ==> s.start.value <= i)
    decreases |input| - i
  {
    if i == |input| then ([], 0)
    else
      match Next(opts, input, i, s)
      case Stop(sets) => (sets, 0)
      case Bad(sets) => (sets, -1)
      case Go(s', sets) =>
        var (more, ret) := Parse(opts, input, i + 1, s');
        (sets + more, ret)
  }

  const INITIAL := State(SeekName, {}, 0, 0, None, false)

  // ----- as it is written -----

  /** The scan of the match map. */
  method NarrowMap(opts: seq<Opt>, map0: set<nat>, c: byte, w: nat) returns (m: Match)
    ensures m == Narrow(opts, map0, c, w, 0)
  {
    var live, n := map0, 0;
    while n < |opts|
      invariant 0 <= n <= |opts| && Narrow(opts, live, c, w, n) == Narrow(opts, map0, c, w, 0)
    {
      if n in live {
        if c == CharAt(opts[n].name, w) {
          if CharAt(opts[n].name, w + 1) == 0 {
            return Match(live, Some(n), false);
          }
        } else {
          live := live - {n};
          if live == {} {
            return Match({}, None, true);
          }
        }
      }
      n := n + 1;
    }
    return Match(live, None, false);
  }

  /** lws_ext_parse_options, with the callbacks collected. */
  method ParseOptions(opts: seq<Opt>, input: seq<byte>) returns (sets: seq<OptSet>, ret: int)
    ensures sets == Parse(opts, input, 0, INITIAL).0 && ret == Parse(opts, input, 0, INITIAL).1
  {
    hide Next;
    var s, i := INITIAL, 0;
    sets := [];
    while i < |input|
      invariant 0 <= i <= |input| && (s.start.Some? ==> s.start.value <= i)
      invariant var (more, r) := Parse(opts, input, i, s);
        var (all, ret0) := Parse(opts, input, 0, INITIAL);
        all == sets + more && ret0 == r
    {
      var step := OneChar(opts, input, i, s);
      ghost var before := sets;
      sets := sets + step.sets;
      if step.Stop? {
        return sets, 0;
      }
      if step.Bad? {
        return sets, -1;
      }
      s := step.s;
      ghost var more := Parse(opts, input, i + 1, s).0;
      assert before + (step.sets + more) == sets + more;
      i := i + 1;
    }
    assert sets + [] == sets;
    return sets, 0;
  }

  /** One turn of the loop: the switch with its fall-throughs, over the parser's variables. */
  method OneChar(opts: seq<Opt>, input: seq<byte>, i: nat, s: State) returns (step: Step)
    requires i < |input| && (s.start.Some? ==> s.start.value <= i)
    ensures step == Next(opts, input, i, s)
  {
    hide Narrow, AllOptions;
    var c, last := input[i], i + 1 == |input|;
    var leap, live, w, index, start, quote := s.leap, s.live, s.w, s.index, s.start, s.quote;
    var text: Option<seq<byte>> := None;
    if leap == SeekName {
      if c == SPACE {
        return Go(s, []);
      }
      if c == COMMA {
        return Stop([]);
      }
      live, leap, w := AllOptions(|opts|), EatName, 0;
    }
    if leap == EatName {
      start, quote := None, false;
      var m := NarrowMap(opts, live, c, w);
      if m.empty {
        return Bad([]);
      }
      live := m.live;
      if m.hit.Some? {
        index, leap := m.hit.value, SeekVal;
      }
      if m.hit.None? || !last {
        return Go(State(leap, live, w + 1, index, start, quote), []);
      }
    } else if leap == SeekVal {
      var kind := if index < |opts| then opts[index].kind else NoArg;
      if c == SPACE {
        return Go(s, []);
      }
      if c == COMMA {
        return Stop([]);
      }
      if c == SEMICOLON || last {
        if kind == Dec {
          return Bad([]);
        }
        leap := SeekName;
      } else if c == EQUALS {
        if kind == NoArg {
          return Bad([]);
        }
        return Go(State(EatDec, live, 0, index, start, false), []);
      } else {
        return Bad([]);
      }
    } else if leap == EatDec {
      if Digit(c) {
        if w == 0 {
          start := Some(i);
        }
        w := w + 1;
        if !last {
          return Go(State(leap, live, w, index, start, quote), []);
        }
      }
      if w == 0 && c == QUOTE {
        return Go(State(leap, live, w, index, start, true), []);
      }
      if w == 0 || (quote && c != QUOTE && !last) {
        return Bad([]);
      }
      leap := SeekArgTerm;
      if start.Some? {
        text := Some(input[start.value..if last then i + 1 else i]);
      }
    }
    var sets: seq<OptSet> := [];
    if s.leap != SeekArgTerm {
      sets := [OptSet(index, text)];
      if last || (quote && c == QUOTE) {
        return Go(State(leap, live, w, index, start, quote), sets);
      }
    }
    if c == COMMA {
      return Stop(sets);
    }
    if c != SPACE && c != SEMICOLON {
      return Bad(sets);
    }
    return Go(State(if c == SEMICOLON then SeekName else leap, live, w, index, start, quote), sets);
  }
}
