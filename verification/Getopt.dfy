/**
 The argument permuter of getoptx.c with the empty option string its only caller passes
 (cmdline_parser.c): it reports the long options one by one and rotates argv in place, so that in
 the end all options precede all operands. Each call is proved against a specification that reads
 the arguments once and never moves anything.
 */
module Getopt {
  import opened Bytes

  // ---------------------------------------------------------------- one reading of the arguments

  datatype ArgReq = NoArgument | RequiredArgument | OptionalArgument

  datatype LongOption = LongOption(name: string, hasArg: ArgReq)

  /** An element that is scanned as an option; "-" and "+" alone are operands. */
  predicate IsOption(s: string) { |s| >= 2 && s[0] in {'-', '+'} }

  const DASHES := "--"

  /** Where the name in an option ends: at the first '=', or at the end. */
  function NameEnd(s: string): (n: nat)
    ensures n <= |s|
    ensures n < |s| ==> s[n] == '='
    ensures forall k | 0 <= k < n :: s[k] != '='
  {
    if s == [] || s[0] == '=' then 0 else 1 + NameEnd(s[1..])
  }

  /** The first option with exactly this name, or the number of options. */
  function ExactIndex(opts: seq<LongOption>, name: string): (i: nat)
    ensures i <= |opts|
    ensures i < |opts| ==> opts[i].name == name
    ensures forall k | 0 <= k < i :: opts[k].name != name
  {
    FirstIndex(opts, (o: LongOption) => o.name == name)
  }

  /** strncmp over the length of the name given: it is the option's name or an abbreviation of it. */
  predicate Fits(name: string, full: string) { |name| <= |full| && full[..|name|] == name }

  lemma {:induction false} FitsExactly(name: string, full: string)
    ensures full == name <==> Fits(name, full) && |name| == |full|
  {
    if full == name {
      assert full[..|name|] == name;
    }
  }

  /** The options a name may abbreviate. */
  function Matches(opts: seq<LongOption>, name: string): (found: seq<nat>)
    ensures forall k | 0 <= k < |found| :: found[k] < |opts| && Fits(name, opts[found[k]].name)
  {
    if opts == [] then []
    else Matches(opts[..|opts| - 1], name) + (if Fits(name, opts[|opts| - 1].name) then [|opts| - 1] else [])
  }

  lemma {:induction false} NoMatches(opts: seq<LongOption>, name: string)
    ensures opts[..0] == [] && Matches([], name) == []
  {
  }

  lemma {:induction false} MatchesNext(opts: seq<LongOption>, name: string, i: nat)
    requires i < |opts|
    ensures Matches(opts[..i + 1], name) == Matches(opts[..i], name) + (if Fits(name, opts[i].name) then [i] else [])
  {
    assert opts[..i + 1][..i] == opts[..i];
  }

  lemma {:induction false} ExactIs(opts: seq<LongOption>, name: string, i: nat)
    requires i <= |opts| && (i < |opts| ==> opts[i].name == name)
    requires forall k | 0 <= k < i :: opts[k].name != name
    ensures ExactIndex(opts, name) == i
  {
    hide ExactIndex;
  }

  datatype Resolution = NoMatch | Ambiguous | Found(index: nat)

  /** An exact name wins; otherwise an abbreviation must fit one option only. */
  function Resolve(opts: seq<LongOption>, name: string): (r: Resolution)
    ensures r.Found? ==> r.index < |opts|
  {
    var exact := ExactIndex(opts, name);
    var found := Matches(opts, name);
    if exact < |opts| then Found(exact)
    else if |found| == 0 then NoMatch
    else if |found| == 1 then Found(found[0])
    else Ambiguous
  }

  /** What an option element at the head of the arguments amounts to. A bad one was advanced over or
      not, depending on where the scan found out. */
  datatype Reading = Bad(advanced: nat) | Reads(index: nat, value: Option<string>, taken: nat)

  function ReadOption(opts: seq<LongOption>, args: seq<string>): (r: Reading)
    requires args != [] && IsOption(args[0])
    ensures r.Reads? ==> 1 <= r.taken <= |args|
    ensures r.Bad? ==> r.advanced <= 1
  {
    var text := args[0][1..];
    var n := NameEnd(text);
    match Resolve(opts, text[..n])
    case NoMatch => Bad(0)
    case Ambiguous => Bad(0)
    case Found(i) =>
      if n < |text| then
        if opts[i].hasArg == NoArgument then Bad(1) else Reads(i, Some(text[n + 1..]), 1)
      else if opts[i].hasArg == NoArgument then Reads(i, None, 1)
      else if |args| > 1 then Reads(i, Some(args[1]), 2)
      else if opts[i].hasArg == OptionalArgument then Reads(i, None, 1)
      else Bad(1)
  }

  datatype Report = Report(index: nat, value: Option<string>)

  /** The reports in order, the option elements with their separate values and "--" in order, the
      operands in order, and whether a bad option stopped the scan. */
  datatype Outcome = Outcome(reports: seq<Report>, options: seq<string>, operands: seq<string>, bad: bool)

  function Before(reports: seq<Report>, options: seq<string>, operands: seq<string>, o: Outcome): Outcome
  {
    Outcome(reports + o.reports, options + o.options, operands + o.operands, o.bad)
  }

  /** The specification: one pass over the arguments. */
  function Parse(opts: seq<LongOption>, args: seq<string>): Outcome
    decreases |args|
  {
    if args == [] then Outcome([], [], [], false)
    else if !IsOption(args[0]) then Before([], [], [args[0]], Parse(opts, args[1..]))
    else if args[0] == DASHES then Outcome([], [DASHES], args[1..], false)
    else match ReadOption(opts, args)
      case Bad(_) => Outcome([], [], [], true)
      case Reads(index, value, taken) =>
        Before([Report(index, value)], args[..taken], [], Parse(opts, args[taken..]))
  }

  // ---------------------------------------------------------------- what the specification means

  /** The elements whose mark is `m`, in order. */
  function Chosen(args: seq<string>, marks: seq<bool>, m: bool): seq<string>
    requires |marks| == |args|
  {
    if args == [] then []
    else (if marks[0] == m then [args[0]] else []) + Chosen(args[1..], marks[1..], m)
  }

  lemma {:induction false} ChosenAll(args: seq<string>, m: bool)
    ensures Chosen(args, seq(|args|, k => m), m) == args
    ensures Chosen(args, seq(|args|, k => m), !m) == []
  {
    var marks := seq(|args|, k => m);
    if args != [] {
      assert marks[1..] == seq(|args| - 1, k => m);
      ChosenAll(args[1..], m);
    }
  }

  lemma {:induction false} ChosenConcat(a: seq<string>, b: seq<string>, x: seq<bool>, y: seq<bool>, m: bool)
    requires |a| == |x| && |b| == |y|
    ensures Chosen(a + b, x + y, m) == Chosen(a, x, m) + Chosen(b, y, m)
  {
    if a == [] {
      assert a + b == b && x + y == y;
    } else {
      assert (a + b)[1..] == a[1..] + b && (x + y)[1..] == x[1..] + y;
      ChosenConcat(a[1..], b, x[1..], y, m);
      assert (a + b)[0] == a[0] && (x + y)[0] == x[0];
      var head := if x[0] == m then [a[0]] else [];
      var p, q := Chosen(a[1..], x[1..], m), Chosen(b, y, m);
      assert head + (p + q) == head + p + q;
    }
  }

  ghost predicate SplitBy(args: seq<string>, marks: seq<bool>, options: seq<string>, operands: seq<string>)
  {
    |marks| == |args| && options == Chosen(args, marks, true) && operands == Chosen(args, marks, false)
  }

  lemma {:induction false} SplitConcat(a: seq<string>, m: bool, b: seq<string>, marks: seq<bool>, options: seq<string>, operands: seq<string>)
    requires SplitBy(b, marks, options, operands)
    ensures SplitBy(a + b, seq(|a|, k => m) + marks, (if m then a else []) + options, (if m then [] else a) + operands)
  {
    hide Chosen;
    ChosenAll(a, m);
    ChosenConcat(a, b, seq(|a|, k => m), marks, true);
    ChosenConcat(a, b, seq(|a|, k => m), marks, false);
  }

  /** Options and operands are the arguments, split in two with the order kept on both sides. */
  lemma {:induction false} ParseSplits(opts: seq<LongOption>, args: seq<string>)
    requires !Parse(opts, args).bad
    ensures exists marks: seq<bool> :: SplitBy(args, marks, Parse(opts, args).options, Parse(opts, args).operands)
    decreases |args|
  {
    hide Chosen, ReadOption;
    var o := Parse(opts, args);
    if args == [] {
      ChosenAll([], true);
      assert SplitBy(args, [], o.options, o.operands) by { assert seq(0, k => true) == []; NoneChosen(); }
    } else if !IsOption(args[0]) {
      ParseSplits(opts, args[1..]);
      var rest := Parse(opts, args[1..]);
      var marks :| SplitBy(args[1..], marks, rest.options, rest.operands);
      SplitConcat([args[0]], false, args[1..], marks, rest.options, rest.operands);
      assert [args[0]] + args[1..] == args;
      assert [] + rest.options == rest.options;
    } else if args[0] == DASHES {
      var marks := seq(|args[1..]|, k => false);
      ChosenAll(args[1..], false);
      SplitConcat([args[0]], true, args[1..], marks, [], args[1..]);
      assert [args[0]] + args[1..] == args;
      assert [] + args[1..] == args[1..] && [args[0]] + [] == [DASHES];
    } else {
      SplitOption(opts, args);
    }
  }

  lemma {:induction false} SplitOption(opts: seq<LongOption>, args: seq<string>)
    requires !Parse(opts, args).bad && args != [] && IsOption(args[0]) && args[0] != DASHES
    ensures exists marks: seq<bool> :: SplitBy(args, marks, Parse(opts, args).options, Parse(opts, args).operands)
    decreases |args|, 0
  {
    hide Chosen, ReadOption, IsOption;
    var r := ReadOption(opts, args);
    ParseSplits(opts, args[r.taken..]);
    var rest := Parse(opts, args[r.taken..]);
    assert Parse(opts, args).options == args[..r.taken] + rest.options;
    assert Parse(opts, args).operands == [] + rest.operands;
    hide Parse;
    var marks :| SplitBy(args[r.taken..], marks, rest.options, rest.operands);
    SplitConcat(args[..r.taken], true, args[r.taken..], marks, rest.options, rest.operands);
    assert args[..r.taken] + args[r.taken..] == args;
    assert [] + rest.operands == rest.operands;
  }

  lemma {:induction false} NoneChosen()
    ensures forall m: bool :: Chosen([], [], m) == []
  {
  }

  /** How the scan ends: after "--", after an option that would take a value if there were one, or
      neither. */
  datatype Ending = Dashes | Wanting | Plain

  predicate Wants(opts: seq<LongOption>, args: seq<string>, r: Reading)
  {
    |args| == 1 && r.Reads? && r.index < |opts| && opts[r.index].hasArg == OptionalArgument && r.value == None
  }

  function EndingOf(opts: seq<LongOption>, args: seq<string>): Ending
    decreases |args|
  {
    if args == [] then Plain
    else if !IsOption(args[0]) then
      EndingOf(opts, args[1..])
    else if args[0] == DASHES then Dashes
    else
      var r := ReadOption(opts, args);
      if r.Bad? then Plain
      else if Wants(opts, args, r) then Wanting
      else EndingOf(opts, args[r.taken..])
  }

  /** What may follow the options without being scanned as one. */
  predicate Inert(ending: Ending, tail: seq<string>)
  {
    ending == Dashes || forall k | 0 <= k < |tail| :: !IsOption(tail[k])
  }

  lemma {:induction false} OperandsInert(opts: seq<LongOption>, args: seq<string>)
    requires !Parse(opts, args).bad
    ensures Inert(EndingOf(opts, args), Parse(opts, args).operands)
    decreases |args|
  {
    hide ReadOption, IsOption;
    if args == [] {
    } else if !IsOption(args[0]) {
      OperandsInert(opts, args[1..]);
    } else if args[0] == DASHES {
    } else {
      var r := ReadOption(opts, args);
      OperandsInert(opts, args[r.taken..]);
      assert [] + Parse(opts, args[r.taken..]).operands == Parse(opts, args[r.taken..]).operands;
      if Wants(opts, args, r) {
        assert args[r.taken..] == [];
      }
    }
  }

  lemma {:induction false} ParseOperands(opts: seq<LongOption>, tail: seq<string>)
    requires forall k | 0 <= k < |tail| :: !IsOption(tail[k])
    ensures Parse(opts, tail) == Outcome([], [], tail, false)
    decreases |tail|
  {
    hide ReadOption;
    if tail != [] {
      ParseOperands(opts, tail[1..]);
      assert [tail[0]] + tail[1..] == tail;
    }
  }

  /** Whether an option can be read does not depend on what follows, unless it wants a value. */
  lemma {:induction false} ReadOptionAgain(opts: seq<LongOption>, args: seq<string>, more: seq<string>)
    requires args != [] && IsOption(args[0]) && ReadOption(opts, args).Reads?
    requires !Wants(opts, args, ReadOption(opts, args))
    ensures ReadOption(opts, args[..ReadOption(opts, args).taken] + more) == ReadOption(opts, args)
  {
    hide Resolve, NameEnd;
  }

  lemma {:induction false} ReadOptionNow(opts: seq<LongOption>, args: seq<string>, more: seq<string>)
    requires |args| == 1 && IsOption(args[0]) && Wants(opts, args, ReadOption(opts, args)) && more != []
    ensures ReadOption(opts, args + more) == Reads(ReadOption(opts, args).index, Some(more[0]), 2)
  {
    hide Resolve, NameEnd;
  }

  lemma {:induction false} ParseOption(opts: seq<LongOption>, taken: seq<string>, rest: seq<string>, r: Reading)
    requires taken != [] && IsOption(taken[0]) && taken[0] != DASHES
    requires ReadOption(opts, taken + rest) == r && r.Reads? && r.taken == |taken|
    ensures Parse(opts, taken + rest) == Before([Report(r.index, r.value)], taken, [], Parse(opts, rest))
  {
    hide ReadOption, IsOption;
    assert (taken + rest)[0] == taken[0] && (taken + rest)[..r.taken] == taken && (taken + rest)[r.taken..] == rest;
  }

  lemma {:induction false} RescanKeeps(opts: seq<LongOption>, args: seq<string>, tail: seq<string>)
    requires !Parse(opts, args).bad && EndingOf(opts, args) != Wanting && Inert(EndingOf(opts, args), tail)
    ensures var o := Parse(opts, args); Parse(opts, o.options + tail) == Outcome(o.reports, o.options, tail, false)
    decreases |args|
  {
    hide ReadOption, IsOption, Wants;
    var o := Parse(opts, args);
    if args == [] {
      assert [] + tail == tail;
      ParseOperands(opts, tail);
    } else if !IsOption(args[0]) {
      var rest := Parse(opts, args[1..]);
      assert [] + rest.options == rest.options && [] + rest.reports == rest.reports;
      RescanKeeps(opts, args[1..], tail);
    } else if args[0] == DASHES {
      assert ([DASHES] + tail)[1..] == tail;
    } else {
      RescanOption(opts, args, tail);
    }
  }

  lemma {:induction false} ParseReads(opts: seq<LongOption>, args: seq<string>)
    requires !Parse(opts, args).bad && args != [] && IsOption(args[0]) && args[0] != DASHES
    ensures var r := ReadOption(opts, args);
            && r.Reads?
            && Parse(opts, args) == Before([Report(r.index, r.value)], args[..r.taken], [], Parse(opts, args[r.taken..]))
            && EndingOf(opts, args) == if Wants(opts, args, r) then Wanting else EndingOf(opts, args[r.taken..])
  {
    hide ReadOption, IsOption, Wants;
  }

  lemma {:induction false} BeforeTail(report: Report, taken: seq<string>, rest: Outcome, tail: seq<string>)
    ensures Before([report], taken, [], Outcome(rest.reports, rest.options, tail, false))
         == Outcome([report] + rest.reports, taken + rest.options, tail, false)
  {
    assert [] + tail == tail;
  }

  lemma {:induction false} RescanOption(opts: seq<LongOption>, args: seq<string>, tail: seq<string>)
    requires !Parse(opts, args).bad && EndingOf(opts, args) != Wanting && Inert(EndingOf(opts, args), tail)
    requires args != [] && IsOption(args[0]) && args[0] != DASHES
    ensures var o := Parse(opts, args); Parse(opts, o.options + tail) == Outcome(o.reports, o.options, tail, false)
    decreases |args|, 0
  {
    hide ReadOption, IsOption, Wants, Parse, EndingOf;
    ParseReads(opts, args);
    var r := ReadOption(opts, args);
    var taken := args[..r.taken];
    var rest := Parse(opts, args[r.taken..]);
    RescanKeeps(opts, args[r.taken..], tail);
    ReadOptionAgain(opts, args, rest.options + tail);
    ParseOption(opts, taken, rest.options + tail, r);
    BeforeTail(Report(r.index, r.value), taken, rest, tail);
    assert taken + rest.options + tail == taken + (rest.options + tail);
  }

  lemma {:induction false} WantsAlone(opts: seq<LongOption>, args: seq<string>, r: Reading)
    requires Wants(opts, args, r)
    ensures |args| == 1 && r.Reads?
  {
  }

  lemma {:induction false} RescanChanges(opts: seq<LongOption>, args: seq<string>, tail: seq<string>)
    requires !Parse(opts, args).bad && EndingOf(opts, args) == Wanting && tail != []
    ensures Parse(opts, Parse(opts, args).options + tail).reports != Parse(opts, args).reports
    decreases |args|
  {
    hide ReadOption, IsOption, Wants;
    var o := Parse(opts, args);
    if !IsOption(args[0]) {
      var rest := Parse(opts, args[1..]);
      assert [] + rest.options == rest.options && [] + rest.reports == rest.reports;
      RescanChanges(opts, args[1..], tail);
    } else {
      var r := ReadOption(opts, args);
      var taken := args[..r.taken];
      var rest := Parse(opts, args[r.taken..]);
      assert o.reports[0] == Report(r.index, r.value);
      if Wants(opts, args, r) {
        WantsAlone(opts, args, r);
        RescanTakes(opts, args, tail);
      } else {
        RescanChanges(opts, args[r.taken..], tail);
        ReadOptionAgain(opts, args, rest.options + tail);
        ParseOption(opts, taken, rest.options + tail, r);
        assert taken + rest.options + tail == taken + (rest.options + tail);
        var again := Parse(opts, rest.options + tail);
        assert ([Report(r.index, r.value)] + again.reports)[1..] == again.reports;
        assert o.reports[1..] == rest.reports;
      }
    }
  }

  lemma {:induction false} RescanTakes(opts: seq<LongOption>, args: seq<string>, tail: seq<string>)
    requires !Parse(opts, args).bad && tail != []
    requires |args| == 1 && IsOption(args[0]) && args[0] != DASHES && Wants(opts, args, ReadOption(opts, args))
    ensures Parse(opts, Parse(opts, args).options + tail).reports != Parse(opts, args).reports
  {
    hide ReadOption, IsOption;
    var r := ReadOption(opts, args);
    assert args[1..] == [] && args[..1] == args;
    assert Parse(opts, args).options == args + Parse(opts, []).options == args;
    assert Parse(opts, args).reports[0] == Report(r.index, None);
    ReadOptionNow(opts, args, tail);
    var again := Reads(r.index, Some(tail[0]), 2);
    assert args + tail == [args[0], tail[0]] + tail[1..];
    ParseOption(opts, [args[0], tail[0]], tail[1..], again);
  }

  /** Scanning the permuted arguments once more reports the same and moves nothing, unless the last
      option wanted a value, had none, and an operand has been moved to where it now finds one. */
  lemma {:induction false} Rescan(opts: seq<LongOption>, args: seq<string>)
    requires !Parse(opts, args).bad
    ensures var o := Parse(opts, args);
            Parse(opts, o.options + o.operands) == o <==> !(EndingOf(opts, args) == Wanting && o.operands != [])
  {
    hide Parse, EndingOf;
    var o := Parse(opts, args);
    OperandsInert(opts, args);
    if EndingOf(opts, args) != Wanting {
      RescanKeeps(opts, args, o.operands);
    } else if o.operands != [] {
      RescanChanges(opts, args, o.operands);
    } else {
      AllOptions(opts, args);
      assert o.options + o.operands == args;
    }
  }

  lemma {:induction false} AllOptions(opts: seq<LongOption>, args: seq<string>)
    requires !Parse(opts, args).bad && Parse(opts, args).operands == []
    ensures Parse(opts, args).options == args
    decreases |args|
  {
    hide ReadOption, IsOption;
    if args != [] && IsOption(args[0]) {
      if args[0] == DASHES {
        assert [args[0]] + args[1..] == args;
      } else {
        var r := ReadOption(opts, args);
        AllOptions(opts, args[r.taken..]);
        assert args[..r.taken] + args[r.taken..] == args;
      }
    }
  }

  // ---------------------------------------------------------------- what each element means

  /** The name names option `i`: it is the first option of exactly that name, or no option has that name
      and option `i` is the only one it abbreviates. */
  ghost predicate Names(opts: seq<LongOption>, name: string, i: nat)
  {
    && i < |opts|
    && (|| (opts[i].name == name && forall k | 0 <= k < i :: opts[k].name != name)
        || (&& (forall k | 0 <= k < |opts| :: opts[k].name != name)
            && (forall k | 0 <= k < |opts| :: name <= opts[k].name <==> k == i)))
  }

  lemma {:induction false} MatchesAre(opts: seq<LongOption>, name: string, k: nat)
    ensures k in Matches(opts, name) <==> k < |opts| && name <= opts[k].name
  {
    hide Fits;
    if opts != [] {
      var n := |opts| - 1;
      MatchesAre(opts[..n], name, k);
      assert Fits(name, opts[n].name) <==> name <= opts[n].name by { FitsIsPrefix(name, opts[n].name); }
    }
  }

  lemma {:induction false} FitsIsPrefix(name: string, full: string)
    ensures Fits(name, full) <==> name <= full
  {
  }

  predicate Rising(found: seq<nat>) { forall a, b | 0 <= a < b < |found| :: found[a] < found[b] }

  lemma {:induction false} MatchesRise(opts: seq<LongOption>, name: string)
    ensures Rising(Matches(opts, name))
  {
    hide Fits;
    if opts != [] {
      var n := |opts| - 1;
      MatchesRise(opts[..n], name);
      var before := Matches(opts[..n], name);
      assert forall a | 0 <= a < |before| :: before[a] < n;
      assert Rising(before + [n]);
      assert Matches(opts, name) == before + (if Fits(name, opts[n].name) then [n] else []);
      assert before + [] == before;
    }
  }

  lemma {:induction false} OnlyOne(found: seq<nat>, i: nat)
    requires found != [] && forall a | 0 <= a < |found| :: found[a] == i
    requires Rising(found)
    ensures found == [i]
  {
    var last := found[|found| - 1];
    assert last == found[0];
  }

  lemma {:induction false} ResolveNames(opts: seq<LongOption>, name: string, i: nat)
    ensures Resolve(opts, name) == Found(i) <==> Names(opts, name, i)
  {
    hide Matches, ExactIndex;
    var exact, found := ExactIndex(opts, name), Matches(opts, name);
    forall k: nat
      ensures k in found <==> k < |opts| && name <= opts[k].name
    {
      MatchesAre(opts, name, k);
    }
    if exact == |opts| {
      if |found| == 1 && found[0] == i {
        assert forall k | 0 <= k < |opts| :: name <= opts[k].name <==> k in found;
      }
      if Names(opts, name, i) {
        assert i in found;
        MatchesRise(opts, name);
        forall a | 0 <= a < |found|
          ensures found[a] == i
        {
          assert found[a] in found && name <= opts[found[a]].name;
        }
        OnlyOne(found, i);
      }
    }
  }

  /** An element `-name=value`; `+` serves as well. */
  lemma {:induction false} ValueForm(opts: seq<LongOption>, sign: char, name: string, value: string, more: seq<string>, i: nat)
    requires sign in {'-', '+'} && '=' !in name && Names(opts, name, i)
    ensures var element := [sign] + name + "=" + value;
            && IsOption(element) && element != DASHES
            && ReadOption(opts, [element] + more) == if opts[i].hasArg == NoArgument then Bad(1) else Reads(i, Some(value), 1)
  {
    hide Resolve, Names, NameEnd;
    ResolveNames(opts, name, i);
    var element, text := [sign] + name + "=" + value, name + "=" + value;
    assert element[1..] == text;
    NameEndIs(text, |name|);
    assert text[..|name|] == name && text[|name| + 1..] == value;
    assert element[1 + |name|] == '=';
  }

  /** An element `-name`, perhaps followed by its value. */
  lemma {:induction false} NameForm(opts: seq<LongOption>, sign: char, name: string, more: seq<string>, i: nat)
    requires sign in {'-', '+'} && '=' !in name && name != "" && Names(opts, name, i)
    ensures IsOption([sign] + name)
    ensures ReadOption(opts, [[sign] + name] + more)
         == if opts[i].hasArg == NoArgument then Reads(i, None, 1)
            else if more != [] then Reads(i, Some(more[0]), 2)
            else if opts[i].hasArg == OptionalArgument then Reads(i, None, 1)
            else Bad(1)
  {
    hide Resolve, Names, NameEnd;
    ResolveNames(opts, name, i);
    assert ([sign] + name)[1..] == name && name[..|name|] == name;
    NameEndIs(name, |name|);
  }

  /** A name that names nothing makes the element a bad one, not stepped over. */
  lemma {:induction false} UnknownForms(opts: seq<LongOption>, sign: char, name: string, tail: string, more: seq<string>)
    requires sign in {'-', '+'} && '=' !in name && name + tail != "" && (tail == "" || tail[0] == '=')
    requires forall i: nat :: !Names(opts, name, i)
    ensures IsOption([sign] + name + tail) && ReadOption(opts, [[sign] + name + tail] + more) == Bad(0)
  {
    hide Resolve, Names, NameEnd;
    var text := name + tail;
    assert [sign] + name + tail == [sign] + text && ([sign] + text)[1..] == text;
    NameEndIs(text, |name|);
    assert text[..|name|] == name;
    if Resolve(opts, name).Found? {
      ResolveNames(opts, name, Resolve(opts, name).index);
    }
  }

  /** Everything else is an operand: the empty element, a lone sign, and whatever begins otherwise. */
  lemma {:induction false} OperandForms(opts: seq<LongOption>, s: string, more: seq<string>)
    requires |s| <= 1 || s[0] !in {'-', '+'}
    ensures Parse(opts, [s] + more) == Before([], [], [s], Parse(opts, more))
  {
    assert ([s] + more)[1..] == more;
  }

  /** An element `-name=value` is reported with that value, and stands among the options. */
  lemma {:induction false} ReportsValue(opts: seq<LongOption>, sign: char, name: string, value: string, more: seq<string>, i: nat)
    requires sign in {'-', '+'} && '=' !in name && Names(opts, name, i) && opts[i].hasArg != NoArgument
    ensures var element := [sign] + name + "=" + value;
            Parse(opts, [element] + more) == Before([Report(i, Some(value))], [element], [], Parse(opts, more))
  {
    hide ReadOption, IsOption, Names;
    var args := [[sign] + name + "=" + value] + more;
    ValueForm(opts, sign, name, value, more, i);
    assert args[1..] == more && args[..1] == [args[0]];
  }

  /** So is an element `-name` followed by its value, and a flag without one. */
  lemma {:induction false} ReportsOption(opts: seq<LongOption>, sign: char, name: string, more: seq<string>, i: nat)
    requires sign in {'-', '+'} && '=' !in name && name != "" && [sign] + name != DASHES && Names(opts, name, i)
    ensures var element := [sign] + name;
            Parse(opts, [element] + more)
            == if opts[i].hasArg == NoArgument then Before([Report(i, None)], [element], [], Parse(opts, more))
               else if more != [] then Before([Report(i, Some(more[0]))], [element, more[0]], [], Parse(opts, more[1..]))
               else if opts[i].hasArg == OptionalArgument then Before([Report(i, None)], [element], [], Parse(opts, []))
               else Outcome([], [], [], true)
  {
    hide ReadOption, IsOption, Names;
    var args := [[sign] + name] + more;
    NameForm(opts, sign, name, more, i);
    assert args[1..] == more && args[..1] == [args[0]];
    if more != [] {
      assert args[2..] == more[1..] && args[..2] == [args[0], more[0]];
    }
  }

  /** After "--" everything is an operand, whatever came before it. */
  lemma {:induction false} AfterDashes(opts: seq<LongOption>, args: seq<string>, tail: seq<string>)
    requires !Parse(opts, args).bad && EndingOf(opts, args) == Plain
    ensures var o := Parse(opts, args);
            Parse(opts, args + [DASHES] + tail) == Outcome(o.reports, o.options + [DASHES], o.operands + tail, false)
  {
    hide Parse;
    ParseContinues(opts, args, [DASHES] + tail);
    assert args + [DASHES] + tail == args + ([DASHES] + tail);
    DashesFirst(opts, tail);
  }

  lemma {:induction false} DashesFirst(opts: seq<LongOption>, tail: seq<string>)
    ensures Parse(opts, [DASHES] + tail) == Outcome([], [DASHES], tail, false)
  {
    assert ([DASHES] + tail)[1..] == tail;
  }

  /** Arguments that leave no option wanting are read as they are when others follow. */
  lemma {:induction false} ParseContinues(opts: seq<LongOption>, args: seq<string>, more: seq<string>)
    requires !Parse(opts, args).bad && EndingOf(opts, args) == Plain
    ensures var o := Parse(opts, args);
            Parse(opts, args + more) == Before(o.reports, o.options, o.operands, Parse(opts, more))
    decreases |args|
  {
    hide ReadOption, IsOption, Before, Parse, EndingOf;
    if args == [] {
      assert args + more == more;
      ParseNothing(opts);
      BeforeNothing(Parse(opts, more));
    } else {
      ParseFirst(opts, args);
      var n := if IsOption(args[0]) then ReadOption(opts, args).taken else 1;
      assert args + more == args[..n] + (args[n..] + more);
      ParseContinues(opts, args[n..], more);
      var o := Parse(opts, args[n..]);
      if IsOption(args[0]) {
        var r := ReadOption(opts, args);
        ReadOptionAgain(opts, args, args[n..] + more);
        ParseOption(opts, args[..n], args[n..] + more, r);
        BeforeTwice([Report(r.index, r.value)], args[..n], [], o, Parse(opts, more));
      } else {
        OperandFirst(opts, args[0], args[n..] + more);
        BeforeTwice([], [], [args[0]], o, Parse(opts, more));
      }
    }
  }

  lemma {:induction false} ParseNothing(opts: seq<LongOption>)
    ensures Parse(opts, []) == Outcome([], [], [], false)
  {
  }

  lemma {:induction false} OperandFirst(opts: seq<LongOption>, s: string, more: seq<string>)
    requires !IsOption(s)
    ensures Parse(opts, [s] + more) == Before([], [], [s], Parse(opts, more))
  {
    assert ([s] + more)[1..] == more;
  }

  /** The head of arguments that end plainly. */
  lemma {:induction false} ParseFirst(opts: seq<LongOption>, args: seq<string>)
    requires !Parse(opts, args).bad && EndingOf(opts, args) == Plain && args != []
    ensures !IsOption(args[0]) ==>
              && args[..1] == [args[0]] && Parse(opts, args) == Before([], [], [args[0]], Parse(opts, args[1..]))
              && !Parse(opts, args[1..]).bad && EndingOf(opts, args[1..]) == Plain
    ensures IsOption(args[0]) ==>
              var r := ReadOption(opts, args);
              && args[0] != DASHES && r.Reads? && !Wants(opts, args, r)
              && Parse(opts, args) == Before([Report(r.index, r.value)], args[..r.taken], [], Parse(opts, args[r.taken..]))
              && !Parse(opts, args[r.taken..]).bad && EndingOf(opts, args[r.taken..]) == Plain
  {
    hide ReadOption, IsOption;
    if IsOption(args[0]) {
      ParseReads(opts, args);
    }
  }

  lemma {:induction false} BeforeTwice(reports: seq<Report>, options: seq<string>, operands: seq<string>, o: Outcome, p: Outcome)
    ensures var b := Before(reports, options, operands, o);
            Before(reports, options, operands, Before(o.reports, o.options, o.operands, p)) == Before(b.reports, b.options, b.operands, p)
  {
    assert reports + (o.reports + p.reports) == reports + o.reports + p.reports;
    assert options + (o.options + p.options) == options + o.options + p.options;
    assert operands + (o.operands + p.operands) == operands + o.operands + p.operands;
  }

  // ---------------------------------------------------------------- what the caller is told

  /** What getopt_long_onlyx names as the unrecognized option when the scan of `args` ends in a bad
      one: the element the scan stands at, if there is any left. */
  function Offending(opts: seq<LongOption>, args: seq<string>): Option<string>
    decreases |args|
  {
    if args == [] then None
    else if !IsOption(args[0]) then Offending(opts, args[1..])
    else if args[0] == DASHES then None
    else match ReadOption(opts, args)
      case Bad(advanced) => if advanced < |args| then Some(args[advanced]) else None
      case Reads(_, _, taken) => Offending(opts, args[taken..])
  }

  /** The place of the bad element, or the number of arguments. */
  function BadIndex(opts: seq<LongOption>, args: seq<string>): (i: nat)
    ensures i <= |args|
    decreases |args|
  {
    if args == [] then 0
    else if !IsOption(args[0]) then 1 + BadIndex(opts, args[1..])
    else if args[0] == DASHES then |args|
    else match ReadOption(opts, args)
      case Bad(_) => 0
      case Reads(_, _, taken) => taken + BadIndex(opts, args[taken..])
  }

  /** The element at BadIndex is the bad one, and the caller is shown that element or the one after it,
      if there is one. */
  ghost predicate ShowsBad(opts: seq<LongOption>, args: seq<string>)
  {
    var i := BadIndex(opts, args);
    && i < |args| && IsOption(args[i]) && ReadOption(opts, args[i..]).Bad?
    && var shown := i + ReadOption(opts, args[i..]).advanced;
       Offending(opts, args) == if shown < |args| then Some(args[shown]) else None
  }

  lemma {:induction false} ShowsLater(opts: seq<LongOption>, args: seq<string>, n: nat)
    requires n <= |args| && ShowsBad(opts, args[n..])
    requires BadIndex(opts, args) == n + BadIndex(opts, args[n..]) && Offending(opts, args) == Offending(opts, args[n..])
    ensures ShowsBad(opts, args)
  {
    hide BadIndex, Offending, ReadOption, IsOption;
    OffendingShift(opts, args, n);
  }

  lemma {:induction false} ShowsFirst(opts: seq<LongOption>, args: seq<string>)
    requires args != [] && IsOption(args[0]) && args[0] != DASHES && ReadOption(opts, args).Bad?
    ensures ShowsBad(opts, args)
  {
    hide ReadOption, IsOption;
    assert args[0..] == args;
  }

  /** The caller is told of a bad option unless it stands last and is one that the scan had already
      stepped over: a flag given a value, or an option that lacks its required value. Told of such an
      option elsewhere, it is shown the element after it. */
  lemma {:induction false} OffendingIs(opts: seq<LongOption>, args: seq<string>)
    requires Parse(opts, args).bad
    ensures ShowsBad(opts, args)
    decreases |args|
  {
    hide ReadOption, IsOption, ShowsBad;
    if !IsOption(args[0]) {
      OffendingIs(opts, args[1..]);
      ShowsLater(opts, args, 1);
    } else {
      var r := ReadOption(opts, args);
      if r.Reads? {
        OffendingIs(opts, args[r.taken..]);
        ShowsLater(opts, args, r.taken);
      } else {
        ShowsFirst(opts, args);
      }
    }
  }

  /** The caller is told nothing of a bad option if and only if the option stands last and the scan had
      stepped over it. */
  lemma {:induction false} MissedWhen(opts: seq<LongOption>, args: seq<string>)
    requires Parse(opts, args).bad
    ensures var i := BadIndex(opts, args);
            && i < |args| && IsOption(args[i])
            && (Offending(opts, args) == None <==> i == |args| - 1 && ReadOption(opts, args[i..]) == Bad(1))
  {
    hide ReadOption, IsOption, Parse, BadIndex, Offending;
    OffendingIs(opts, args);
  }

  /** An option is stepped over and bad if it is a flag given a value, or one that lacks its required
      value. Options of the driver never require one: its table says absent or optional. */
  lemma {:induction false} SteppedOver(opts: seq<LongOption>, args: seq<string>)
    requires args != [] && IsOption(args[0])
    ensures var text := args[0][1..];
            var n := NameEnd(text);
            var r := Resolve(opts, text[..n]);
            && (ReadOption(opts, args) == Bad(1)
                <==> r.Found? && (|| (n < |text| && opts[r.index].hasArg == NoArgument)
                                  || (n == |text| && |args| == 1 && opts[r.index].hasArg == RequiredArgument)))
            && ((forall k | 0 <= k < |opts| :: opts[k].hasArg != RequiredArgument) ==>
                  (ReadOption(opts, args) == Bad(1) <==> r.Found? && n < |text| && opts[r.index].hasArg == NoArgument))
  {
    hide Resolve, NameEnd;
  }

  /** A flag `v` and the argument `-v=1`: bad, and nobody is told. */
  lemma {:induction false} MissedFlag()
    ensures var opts := [LongOption("v", NoArgument)];
            Parse(opts, ["-v=1"]).bad && Offending(opts, ["-v=1"]) == None
  {
    var opts := [LongOption("v", NoArgument)];
    assert "-v=1"[1..] == "v=1";
    assert NameEnd("v=1") == 1 by { NameEndIs("v=1", 1); }
    assert "v=1"[..1] == "v";
    ExactIs(opts, "v", 0);
    assert Resolve(opts, "v") == Found(0);
  }

  /** An option `w` that can take a value, after an operand: scanning what the first scan left, the
      option takes the operand for its value. */
  lemma {:induction false} RescanTakesOperand()
    ensures var opts, o := [LongOption("w", OptionalArgument)], Parse([LongOption("w", OptionalArgument)], ["x", "-w"]);
            && o == Outcome([Report(0, None)], ["-w"], ["x"], false)
            && Parse(opts, o.options + o.operands) == Outcome([Report(0, Some("x"))], ["-w", "x"], [], false)
  {
    hide ReadOption;
    var opts := [LongOption("w", OptionalArgument)];
    OptionalValue("w", []);
    OptionalValue("w", ["x"]);
    assert ['-'] + "w" == "-w" && ["-w"] + [] == ["-w"] && ["-w"] + ["x"] == ["-w", "x"];
    assert Parse(opts, []) == Outcome([], [], [], false);
    assert ["-w"][1..] == [] && ["-w"][..1] == ["-w"];
    assert Parse(opts, ["-w"]) == Outcome([Report(0, None)], ["-w"], [], false);
    assert ["x", "-w"][1..] == ["-w"];
    assert ["-w", "x"][2..] == [] && ["-w", "x"][..2] == ["-w", "x"];
  }

  lemma {:induction false} OptionalValue(name: string, more: seq<string>)
    requires name != "" && '=' !in name
    ensures ReadOption([LongOption(name, OptionalArgument)], [['-'] + name] + more)
         == if more == [] then Reads(0, None, 1) else Reads(0, Some(more[0]), 2)
  {
    hide NameEnd, ExactIndex, Matches;
    assert (['-'] + name)[1..] == name && name[..|name|] == name;
    NameEndIs(name, |name|);
    ExactIs([LongOption(name, OptionalArgument)], name, 0);
  }

  lemma {:induction false} OffendingShift(opts: seq<LongOption>, args: seq<string>, n: nat)
    requires n <= |args|
    requires BadIndex(opts, args) == n + BadIndex(opts, args[n..])
    ensures BadIndex(opts, args[n..]) <= |args| - n
    ensures args[BadIndex(opts, args)..] == args[n..][BadIndex(opts, args[n..])..]
    ensures BadIndex(opts, args) < |args| ==> args[BadIndex(opts, args)] == args[n..][BadIndex(opts, args[n..])]
    ensures forall k | 0 <= k < |args| - n :: args[n..][k] == args[n + k]
  {
    hide BadIndex;
  }

  // ---------------------------------------------------------------- steps of the specification

  lemma {:induction false} ParseOperand(opts: seq<LongOption>, s: string, rest: seq<string>)
    requires !IsOption(s)
    ensures Parse(opts, [s] + rest) == Before([], [], [s], Parse(opts, rest))
    ensures Offending(opts, [s] + rest) == Offending(opts, rest)
  {
    hide ReadOption, IsOption;
    assert ([s] + rest)[1..] == rest;
  }

  lemma {:induction false} BeforeNothing(o: Outcome)
    ensures Before([], [], [], o) == o
  {
    assert [] + o.reports == o.reports && [] + o.options == o.options && [] + o.operands == o.operands;
  }

  lemma {:induction false} BeforeBefore(a: seq<string>, b: seq<string>, o: Outcome)
    ensures Before([], [], a, Before([], [], b, o)) == Before([], [], a + b, o)
  {
    BeforeNothing(o);
    assert a + (b + o.operands) == a + b + o.operands;
  }

  lemma {:induction false} ParseSkips(opts: seq<LongOption>, skipped: seq<string>, rest: seq<string>)
    requires forall k | 0 <= k < |skipped| :: !IsOption(skipped[k])
    ensures Parse(opts, skipped + rest) == Before([], [], skipped, Parse(opts, rest))
    ensures Offending(opts, skipped + rest) == Offending(opts, rest)
    decreases |skipped|
  {
    hide Parse, Offending, IsOption, Before;
    if skipped == [] {
      assert skipped + rest == rest;
      BeforeNothing(Parse(opts, rest));
    } else {
      ParseSkips(opts, skipped[1..], rest);
      assert skipped + rest == [skipped[0]] + (skipped[1..] + rest);
      ParseOperand(opts, skipped[0], skipped[1..] + rest);
      BeforeBefore([skipped[0]], skipped[1..], Parse(opts, rest));
      assert [skipped[0]] + skipped[1..] == skipped;
    }
  }

  function Overwritten(w: seq<string>, block: seq<string>, at: nat): seq<string>
    requires at + |block| <= |w|
  {
    w[..at] + block + w[at + |block|..]
  }

  /** The blocks from `i` to `j` and from `j` to `k` change places. */
  function Swapped(w: seq<string>, i: nat, j: nat, k: nat): (r: seq<string>)
    requires i <= j <= k <= |w|
    ensures |r| == |w|
    ensures i > 0 ==> r[0] == w[0]
  {
    w[..i] + w[j..k] + w[i..j] + w[k..]
  }

  /** bcopy: the block is read before anything is written. */
  method Move(argv: array<string>, block: seq<string>, at: nat)
    requires at + |block| <= argv.Length
    modifies argv
    ensures argv[..] == Overwritten(old(argv[..]), block, at)
  {
    ghost var was := argv[..];
    for i := 0 to |block|
      invariant argv[..] == Overwritten(was, block[..i], at)
    {
      argv[at + i] := block[i];
      OneMoved(was, block, at, i);
    }
    assert block[..|block|] == block;
  }

  lemma {:induction false} OneMoved(w: seq<string>, block: seq<string>, at: nat, i: nat)
    requires at + |block| <= |w| && i < |block|
    ensures Overwritten(w, block[..i], at)[at + i := block[i]] == Overwritten(w, block[..i + 1], at)
  {
  }

  lemma {:induction false} Rotated(was: seq<string>, mid: seq<string>, now: seq<string>, first: nat, m: nat, n: nat)
    requires first + m + n <= |was|
    requires mid == Overwritten(was, was[first + m..first + m + n], first)
    requires now == Overwritten(mid, was[first..first + m], first + n)
    ensures now == Swapped(was, first, first + m, first + m + n)
  {
    assert mid[..first + n] == was[..first] + was[first + m..first + m + n];
    assert mid[first + n + m..] == was[first + m + n..];
  }

  // ---------------------------------------------------------------- the parts of argv

  /** argv: the program name, options in place, operands skipped, options found since, and the rest. */
  function Row(p: string, a: seq<string>, b: seq<string>, c: seq<string>, d: seq<string>): (w: seq<string>)
    ensures |w| == 1 + |a| + |b| + |c| + |d| && w[0] == p
  {
    [p] + a + b + c + d
  }

  lemma {:induction false} RowExchanged(p: string, a: seq<string>, b: seq<string>, c: seq<string>, d: seq<string>)
    ensures var i := 1 + |a|;
            Swapped(Row(p, a, b, c, d), i, i + |b|, i + |b| + |c|) == Row(p, a + c, b, [], d)
  {
    var w, i := Row(p, a, b, c, d), 1 + |a|;
    assert w[..i] == [p] + a;
    assert w[i..i + |b|] == b;
    assert w[i + |b|..i + |b| + |c|] == c;
    assert w[i + |b| + |c|..] == d;
    assert [p] + a + c + b + d == [p] + (a + c) + b + [] + d;
  }

  lemma {:induction false} RowMerged(p: string, a: seq<string>, c: seq<string>, d: seq<string>)
    ensures Row(p, a, [], c, d) == Row(p, a + c, [], [], d)
  {
    assert [p] + a + [] + c + d == [p] + (a + c) + [] + [] + d;
  }

  lemma {:induction false} RowSkipped(p: string, a: seq<string>, b: seq<string>, operands: seq<string>, d: seq<string>)
    ensures Row(p, a, b, [], operands + d) == Row(p, a, b + operands, [], d)
  {
    assert [p] + a + b + [] + (operands + d) == [p] + a + (b + operands) + [] + d;
  }

  lemma {:induction false} RowTaken(p: string, a: seq<string>, b: seq<string>, c: seq<string>, options: seq<string>, d: seq<string>)
    ensures Row(p, a, b, c, options + d) == Row(p, a, b, c + options, d)
  {
    assert [p] + a + b + c + (options + d) == [p] + a + b + (c + options) + d;
  }

  lemma {:induction false} RowOption(p: string, a: seq<string>, b: seq<string>, args: seq<string>, n: nat)
    requires n <= |args|
    ensures Row(p, a, b, [], args) == Row(p, a, b, args[..n], args[n..])
  {
    hide Row;
    assert args == args[..n] + args[n..];
    RowTaken(p, a, b, [], args[..n], args[n..]);
    assert [] + args[..n] == args[..n];
  }

  lemma {:induction false} RowAt(p: string, a: seq<string>, b: seq<string>, c: seq<string>, d: seq<string>, k: nat)
    requires k < |d|
    ensures Row(p, a, b, c, d)[1 + |a| + |b| + |c| + k] == d[k]
  {
  }

  lemma {:induction false} RowStart(w: seq<string>)
    requires w != []
    ensures w == Row(w[0], [], [], [], w[1..])
  {
  }

  // ---------------------------------------------------------------- the scanner

  const EOF := -1
  const QUESTION := 63

  /** The static variables of getoptx.c, for one argv. The ghost fields say what the parts of argv
      are: options already in place, operands skipped so far, options found after those, and what has
      not been scanned. */
  class Scanner {
    const argv: array<string>
    const opts: seq<LongOption>
    var optindx: nat
    var firstNonopt: nat
    var lastNonopt: nat
    var optionIndex: nat
    ghost var done: seq<string>
    ghost var skipped: seq<string>
    ghost var recent: seq<string>
    ghost var rest: seq<string>

    ghost predicate Laid()
      reads this, argv
    {
      argv.Length >= 1 && argv[..] == Row(argv[0], done, skipped, recent, rest)
    }

    ghost predicate Valid()
      reads this, argv
    {
      && Laid()
      && if optindx == 0 then done == skipped == recent == []
         else firstNonopt == 1 + |done| && lastNonopt == firstNonopt + |skipped| && optindx == lastNonopt + |recent|
    }

    /** optindx is zero before the first call. */
    constructor (argv: array<string>, opts: seq<LongOption>)
      requires argv.Length >= 1
      ensures Valid() && this.argv == argv && this.opts == opts && optindx == 0 && rest == argv[1..]
    {
      this.argv, this.opts, optindx, firstNonopt, lastNonopt, optionIndex := argv, opts, 0, 0, 0, 0;
      done, skipped, recent, rest := [], [], [], argv[1..];
      RowStart(argv[..]);
    }

    /** exchange: the skipped operands and the options found after them change places. */
    method Exchange()
      requires 1 <= firstNonopt <= lastNonopt <= optindx <= argv.Length
      modifies this`firstNonopt, this`lastNonopt, argv
      ensures argv[..] == Swapped(old(argv[..]), old(firstNonopt), old(lastNonopt), optindx)
      ensures firstNonopt == old(firstNonopt) + (optindx - old(lastNonopt)) && lastNonopt == optindx
    {
      hide Overwritten, Swapped;
      ghost var was := argv[..];
      var first, m, n := firstNonopt, lastNonopt - firstNonopt, optindx - lastNonopt;
      var temp := argv[firstNonopt..lastNonopt];
      var block := argv[lastNonopt..optindx];
      assert temp == was[first..first + m] && block == was[first + m..first + m + n];
      Move(argv, block, first);
      ghost var mid := argv[..];
      Move(argv, temp, first + n);
      Rotated(was, mid, argv[..], first, m, n);
      assert first + m == lastNonopt && first + m + n == optindx;
      firstNonopt := firstNonopt + (optindx - lastNonopt);
      lastNonopt := optindx;
    }

    /** The options found since the last operands were skipped go before those operands. */
    method Settle()
      requires Valid() && optindx > 0
      modifies this`firstNonopt, this`lastNonopt, this`done, this`recent, argv
      ensures done == old(done) + old(recent) && recent == [] && argv[0] == old(argv[0])
      ensures Laid() && firstNonopt == 1 + |done| && optindx == firstNonopt + |skipped|
    {
      hide Row, Swapped;
      if firstNonopt != lastNonopt && lastNonopt != optindx {
        RowExchanged(argv[0], done, skipped, recent, rest);
        Exchange();
      } else if lastNonopt != optindx {
        RowMerged(argv[0], done, recent, rest);
        firstNonopt := optindx;
      }
      assert recent == [] ==> done + recent == done;
      done, recent := done + recent, [];
    }

    /** The loop that skips operands. */
    method SkipOperands() returns (ghost operands: seq<string>)
      requires Laid() && recent == [] && firstNonopt == 1 + |done| && optindx == firstNonopt + |skipped|
      modifies this`optindx, this`lastNonopt, this`skipped, this`rest
      ensures Valid() && optindx > 0 && optindx >= old(optindx) && firstNonopt == old(firstNonopt)
      ensures optindx < argv.Length ==> IsOption(argv[optindx])
      ensures old(rest) == operands + rest && skipped == old(skipped) + operands
      ensures forall k | 0 <= k < |operands| :: !IsOption(operands[k])
    {
      hide IsOption, Row;
      ghost var all := rest;
      ghost var front := skipped;
      ghost var n := 0;
      while optindx < argv.Length && !IsOption(argv[optindx])
        invariant 0 <= n <= |all| && optindx == firstNonopt + |front| + n
        invariant forall k | 0 <= k < n :: !IsOption(all[k])
        modifies this`optindx
      {
        RowAt(argv[0], done, front, [], all, n);
        optindx := optindx + 1;
        n := n + 1;
      }
      lastNonopt := optindx;
      operands := all[..n];
      assert all == operands + all[n..];
      RowSkipped(argv[0], done, front, operands, all[n..]);
      skipped, rest := skipped + operands, all[n..];
    }
  
    /** The name lookup: the loop over the long options, with abbreviations. */
    method FindOption(name: string) returns (r: Resolution)
      ensures r == Resolve(opts, name)
    {
      hide Matches, ExactIndex, Fits;
      var found: Option<nat> := None;
      var ambig := false;
      var i := 0;
      ghost var ms: seq<nat> := [];
      assert opts[..0] == [] && Matches(opts[..0], name) == [] by { NoMatches(opts, name); }
      while i < |opts|
        invariant 0 <= i <= |opts|
        invariant forall k | 0 <= k < i :: opts[k].name != name
        invariant ms == Matches(opts[..i], name)
        invariant found == (if ms == [] then None else Some(ms[0])) && ambig == (|ms| > 1)
      {
        MatchesNext(opts, name, i);
        var candidate := opts[i].name;
        FitsExactly(name, candidate);
        if Fits(name, candidate) {
          if |name| == |candidate| {
            ExactIs(opts, name, i);
            return Found(i);
          } else if found == None {
            found := Some(i);
          } else {
            ambig := true;
          }
          ms := ms + [i];
        }
        i := i + 1;
      }
      ExactIs(opts, name, i);
      assert opts[..i] == opts;
      if ambig {
        return Ambiguous;
      }
      return match found case Some(k) => Found(k) case None => NoMatch;
    }

    /** The "--" is stepped over like an option; everything after it is an operand. */
    method PassDashes()
      requires Valid() && optindx > 0 && recent == [] && rest != [] && rest[0] == DASHES
      modifies this, argv
      ensures argv[0] == old(argv[0])
      ensures done == old(done) + [DASHES] && skipped == old(skipped) && recent == [] && rest == old(rest)[1..]
      ensures Laid() && firstNonopt == 1 + |done| && lastNonopt == optindx == argv.Length
    {
      hide Row, Swapped;
      optindx := optindx + 1;
      assert rest == [DASHES] + rest[1..];
      RowTaken(argv[0], done, skipped, [], [DASHES], rest[1..]);
      assert [] + [DASHES] == [DASHES];
      recent, rest := [DASHES], rest[1..];
      if firstNonopt != lastNonopt && lastNonopt != optindx {
        RowExchanged(argv[0], done, skipped, recent, rest);
        Exchange();
      } else if firstNonopt == lastNonopt {
        RowMerged(argv[0], done, recent, rest);
        firstNonopt := optindx;
      }
      lastNonopt := argv.Length;
      optindx := argv.Length;
      done, recent := done + recent, [];
    }

    /** The end of the scan: "--" if there is one, and what is left. */
    method Finish()
      requires Valid() && optindx > 0 && recent == []
      requires rest == [] || rest[0] == DASHES
      modifies this, argv
      ensures argv[0] == old(argv[0])
      ensures var os, ns := (if old(rest) == [] then [] else [DASHES]), (if old(rest) == [] then [] else old(rest)[1..]);
              && argv[..] == Row(argv[0], old(done) + os, old(skipped) + ns, [], [])
              && optindx == 1 + |old(done) + os|
    {
      hide Row;
      if optindx != argv.Length {
        PassDashes();
      } else {
        assert done + [] == done;
      }
      assert rest + [] == rest;
      RowSkipped(argv[0], done, skipped, rest, []);
      if firstNonopt != lastNonopt {
        optindx := firstNonopt;
      }
    }
  
    /** The part of getoptx that decodes an option element. */
    method TakeOption() returns (rc: int, optarg: Option<string>)
      requires Valid() && optindx > 0 && recent == [] && rest != [] && IsOption(rest[0])
      modifies this`optindx, this`optionIndex, this`recent, this`rest
      ensures var r := ReadOption(opts, old(rest));
              if r.Bad? then rc == QUESTION && optindx == old(optindx) + r.advanced
              else && rc == 0 && Valid() && optindx == old(optindx) + r.taken
                   && optionIndex == r.index && optarg == r.value
                   && recent == old(rest)[..r.taken] && rest == old(rest)[r.taken..]
    {
      hide Row, Resolve, IsOption, NameEnd;
      ghost var args := rest;
      RowAt(argv[0], done, skipped, [], args, 0);
      optarg := None;
      assert argv[optindx] == args[0];
      assert |args[0]| >= 2 by { OptionLength(args[0]); }
      var nextchar := argv[optindx][1..];
      var s := 0;
      while s < |nextchar| && nextchar[s] != '='
        invariant 0 <= s <= |nextchar|
        invariant forall k | 0 <= k < s :: nextchar[k] != '='
      {
        s := s + 1;
      }
      NameEndIs(nextchar, s);
      var found := FindOption(nextchar[..s]);
      if found.Ambiguous? {
        return QUESTION, None;
      }
      if found.Found? {
        var hasArg := opts[found.index].hasArg;
        optionIndex := found.index;
        optindx := optindx + 1;
        if s < |nextchar| {
          if hasArg != NoArgument {
            optarg := Some(nextchar[s + 1..]);
          } else {
            return QUESTION, None;
          }
        } else if hasArg != NoArgument {
          if optindx < argv.Length {
            RowAt(argv[0], done, skipped, [], args, 1);
            optarg := Some(argv[optindx]);
            optindx := optindx + 1;
          } else if hasArg != OptionalArgument {
            return QUESTION, None;
          }
        }
        ghost var taken := ReadOption(opts, args).taken;
        RowOption(argv[0], done, skipped, args, taken);
        recent, rest := args[..taken], args[taken..];
        return 0, optarg;
      }
      return QUESTION, None;
    }

    /** The part of getoptx up to the next option element. */
    method Advance() returns (ghost operands: seq<string>)
      requires Valid()
      modifies this, argv
      ensures argv[0] == old(argv[0])
      ensures Valid() && recent == [] && optindx > 0 && optindx >= old(optindx)
      ensures done == old(done) + old(recent) && skipped == old(skipped) + operands && |rest| <= |old(rest)|
      ensures if optindx < argv.Length then rest != [] && argv[optindx] == rest[0] && IsOption(rest[0]) else rest == []
      ensures Parse(opts, old(rest)) == Before([], [], operands, Parse(opts, rest))
      ensures Offending(opts, old(rest)) == Offending(opts, rest)
    {
      hide Row, IsOption, ReadOption, Parse, Offending, Before;
      if optindx == 0 {
        firstNonopt, lastNonopt, optindx := 1, 1, 1;
      }
      Settle();
      operands := SkipOperands();
      ParseSkips(opts, operands, rest);
      if optindx < argv.Length {
        RowAt(argv[0], done, skipped, [], rest, 0);
      }
    }

    /** getoptx: one option, or the end, or a bad option. */
    method Getoptx() returns (rc: int, optarg: Option<string>)
      requires Valid()
      modifies this, argv
      ensures argv[0] == old(argv[0])
      ensures rc in {0, EOF, QUESTION}
      ensures rc == 0 ==> Valid() && |rest| < |old(rest)| && optindx > old(optindx)
      ensures rc == 0 ==>
                && old(done) + old(recent) <= done + recent && old(skipped) <= skipped
                && Parse(opts, old(rest))
                   == Before([Report(optionIndex, optarg)], (done + recent)[|old(done) + old(recent)|..], skipped[|old(skipped)|..], Parse(opts, rest))
                && Offending(opts, old(rest)) == Offending(opts, rest)
      ensures var p := Parse(opts, old(rest));
              && (rc == EOF ==>
                    && p.reports == [] && !p.bad
                    && argv[..] == Row(argv[0], old(done) + old(recent) + p.options, old(skipped) + p.operands, [], [])
                    && optindx == 1 + |old(done) + old(recent) + p.options|)
              && (rc == QUESTION ==>
                    && p.reports == [] && p.bad
                    && Offending(opts, old(rest)) == if optindx < argv.Length then Some(argv[optindx]) else None)
    {
      hide Row, IsOption, ReadOption, Parse, Offending, Before;
      ghost var all := rest;
      ghost var options := done + recent;
      ghost var operands := Advance();
      ghost var tail := rest;
      if optindx == argv.Length || argv[optindx] == DASHES {
        ParseEnds(opts, tail);
        EndsWith(operands, Parse(opts, tail), old(skipped));
        Finish();
        return EOF, None;
      }
      ghost var r := ReadOption(opts, tail);
      ParseOne(opts, tail);
      rc, optarg := TakeOption();
      if rc == QUESTION {
        StandsAt(argv, argv[0], done, skipped, tail, r.advanced);
        EndsWith(operands, Parse(opts, tail), old(skipped));
        return;
      }
      Regroup(Report(optionIndex, optarg), options, recent, old(skipped), operands, Parse(opts, all), Parse(opts, rest));
    }

    /** getopt_long_onlyx */
    method GetoptLongOnly() returns (rc: int, report: Report, unrecognized: Option<string>)
      requires Valid()
      modifies this, argv
      ensures argv[0] == old(argv[0])
      ensures rc in {0, EOF, QUESTION}
      ensures rc == 0 ==> Valid() && |rest| < |old(rest)| && optindx > old(optindx) && unrecognized == None
      ensures rc == 0 ==>
                && old(done) + old(recent) <= done + recent && old(skipped) <= skipped
                && Parse(opts, old(rest))
                   == Before([report], (done + recent)[|old(done) + old(recent)|..], skipped[|old(skipped)|..], Parse(opts, rest))
                && Offending(opts, old(rest)) == Offending(opts, rest)
      ensures var p := Parse(opts, old(rest));
              && (rc == EOF ==>
                    && p.reports == [] && !p.bad && unrecognized == None
                    && argv[..] == Row(argv[0], old(done) + old(recent) + p.options, old(skipped) + p.operands, [], [])
                    && optindx == 1 + |old(done) + old(recent) + p.options|)
              && (rc == QUESTION ==> p.reports == [] && p.bad && unrecognized == Offending(opts, old(rest)))
    {
      hide Row, Parse, Offending, Before;
      var optarg;
      rc, optarg := Getoptx();
      report := Report(optionIndex, optarg);
      unrecognized := None;
      if rc == QUESTION && optindx < argv.Length {
        unrecognized := Some(argv[optindx]);
      }
    }
  }

  lemma {:induction false} EndsWith(operands: seq<string>, o: Outcome, front: seq<string>)
    ensures Before([], [], operands, o) == Outcome(o.reports, o.options, operands + o.operands, o.bad)
    ensures front + operands + o.operands == front + (operands + o.operands)
  {
    assert [] + o.reports == o.reports && [] + o.options == o.options;
  }

  lemma {:induction false} StandsAt(argv: array<string>, p: string, a: seq<string>, b: seq<string>, tail: seq<string>, n: nat)
    requires argv[..] == Row(p, a, b, [], tail) && n <= |tail|
    ensures n < |tail| <==> 1 + |a| + |b| + n < argv.Length
    ensures n < |tail| ==> argv[1 + |a| + |b| + n] == tail[n]
  {
    if n < |tail| {
      RowAt(p, a, b, [], tail, n);
    }
    hide Row;
  }

  lemma {:induction false} ParseEnds(opts: seq<LongOption>, tail: seq<string>)
    requires tail == [] || tail[0] == DASHES
    ensures Parse(opts, tail) == Outcome([], if tail == [] then [] else [DASHES], if tail == [] then [] else tail[1..], false)
  {
    hide ReadOption;
  }

  lemma {:induction false} ParseOne(opts: seq<LongOption>, tail: seq<string>)
    requires tail != [] && IsOption(tail[0]) && tail[0] != DASHES
    ensures var r := ReadOption(opts, tail);
            if r.Bad? then
              && Parse(opts, tail) == Outcome([], [], [], true)
              && Offending(opts, tail) == if r.advanced < |tail| then Some(tail[r.advanced]) else None
            else
              && Parse(opts, tail) == Before([Report(r.index, r.value)], tail[..r.taken], [], Parse(opts, tail[r.taken..]))
              && Offending(opts, tail) == Offending(opts, tail[r.taken..])
  {
    hide ReadOption, IsOption;
  }

  lemma {:induction false} Regroup(report: Report, options: seq<string>, taken: seq<string>, front: seq<string>, operands: seq<string>, whole: Outcome, o: Outcome)
    requires whole == Before([], [], operands, Before([report], taken, [], o))
    ensures options <= options + taken && front <= front + operands
    ensures whole == Before([report], (options + taken)[|options|..], (front + operands)[|front|..], o)
  {
    assert (options + taken)[|options|..] == taken && (front + operands)[|front|..] == operands;
    assert [] + ([report] + o.reports) == [report] + o.reports;
    assert [] + (taken + o.options) == taken + o.options;
    assert operands + ([] + o.operands) == operands + o.operands;
  }

  lemma {:induction false} OptionLength(s: string)
    requires IsOption(s)
    ensures |s| >= 2
  {
  }

  lemma {:induction false} NameEndIs(s: string, n: nat)
    requires n <= |s| && (n < |s| ==> s[n] == '=') && forall k | 0 <= k < n :: s[k] != '='
    ensures NameEnd(s) == n
  {
    hide NameEnd;
  }

  // ---------------------------------------------------------------- the whole command line

  lemma {:induction false} BeforeStep(reports: seq<Report>, options: seq<string>, operands: seq<string>, report: Report,
                                      options': seq<string>, operands': seq<string>, o: Outcome)
    requires options <= options' && operands <= operands'
    ensures Before(reports, options, operands, Before([report], options'[|options|..], operands'[|operands|..], o))
         == Before(reports + [report], options', operands', o)
  {
    assert options + options'[|options|..] == options' && operands + operands'[|operands|..] == operands';
    assert reports + ([report] + o.reports) == reports + [report] + o.reports;
    assert options + (options'[|options|..] + o.options) == options' + o.options;
    assert operands + (operands'[|operands|..] + o.operands) == operands' + o.operands;
  }

  lemma {:induction false} BeforeStart(o: Outcome)
    ensures Before([], [], [], o) == o
  {
    BeforeNothing(o);
  }

  lemma {:induction false} RowEnds(p: string, options: seq<string>, operands: seq<string>)
    ensures Row(p, options, operands, [], []) == [p] + options + operands
    ensures ([p] + options + operands)[1 + |options|..] == operands
  {
  }

  /** extractArguments */
  method ExtractArguments(argv: array<string>, start: nat) returns (arguments: seq<string>)
    requires start <= argv.Length
    ensures arguments == argv[start..]
  {
    arguments := [];
    for i := start to argv.Length
      invariant arguments == argv[start..i]
    {
      arguments := arguments + [argv[i]];
    }
  }

  /** cmd_processOptions, as far as the scan goes: the options found, the option complained about, and
      the arguments. `missed` says that the scan met a bad option but had nothing to show for it, so
      that the caller carries on with an option index nobody has set. */
  method ProcessOptions(argv: array<string>, opts: seq<LongOption>)
    returns (reports: seq<Report>, error: Option<string>, missed: bool, arguments: seq<string>)
    requires argv.Length >= 1
    modifies argv
    ensures argv[0] == old(argv[0])
    ensures var p := Parse(opts, old(argv[1..]));
            && reports == p.reports
            && (!p.bad ==>
                  && error == None && !missed
                  && argv[..] == [argv[0]] + p.options + p.operands && arguments == p.operands)
            && (p.bad ==> error == Offending(opts, old(argv[1..])) && missed == (error == None))
  {
    hide Parse, Offending, Before, Row;
    ghost var all := argv[1..];
    var scanner := new Scanner(argv, opts);
    reports, error, missed, arguments := [], None, false, [];
    var endOfOptions := false;
    BeforeStart(Parse(opts, all));
    assert scanner.done + scanner.recent == [];
    while !endOfOptions
      invariant scanner.argv == argv && scanner.opts == opts && argv[0] == old(argv[0]) && fresh(scanner)
      invariant !endOfOptions ==> scanner.Valid()
      invariant !endOfOptions ==> Parse(opts, all) == Before(reports, scanner.done + scanner.recent, scanner.skipped, Parse(opts, scanner.rest))
      invariant !endOfOptions ==> Offending(opts, all) == Offending(opts, scanner.rest)
      invariant endOfOptions ==>
                  var p := Parse(opts, all);
                  && !p.bad && reports == p.reports
                  && argv[..] == Row(argv[0], p.options, p.operands, [], []) && scanner.optindx == 1 + |p.options|
      invariant error == None && !missed
      decreases !endOfOptions, |scanner.rest|
    {
      ghost var options, operands, rest := scanner.done + scanner.recent, scanner.skipped, scanner.rest;
      var rc, report, unrecognized := scanner.GetoptLongOnly();
      if unrecognized.Some? {
        error := unrecognized;
        BadEnd(reports, options, operands, Parse(opts, rest));
        return;
      }
      if rc == QUESTION {
        missed := true;
        BadEnd(reports, options, operands, Parse(opts, rest));
        return;
      }
      if rc == EOF {
        endOfOptions := true;
        GoodEnd(reports, options, operands, Parse(opts, rest));
      } else {
        BeforeStep(reports, options, operands, report, scanner.done + scanner.recent, scanner.skipped, Parse(opts, scanner.rest));
        reports := reports + [report];
      }
    }
    ghost var p := Parse(opts, all);
    RowEnds(argv[0], p.options, p.operands);
    arguments := ExtractArguments(argv, scanner.optindx);
    assert argv[scanner.optindx..] == argv[..][scanner.optindx..];
  }

  lemma {:induction false} BadEnd(reports: seq<Report>, options: seq<string>, operands: seq<string>, o: Outcome)
    requires o.reports == []
    ensures Before(reports, options, operands, o).reports == reports && Before(reports, options, operands, o).bad == o.bad
  {
  }

  lemma {:induction false} GoodEnd(reports: seq<Report>, options: seq<string>, operands: seq<string>, o: Outcome)
    requires o.reports == []
    ensures Before(reports, options, operands, o) == Outcome(reports, options + o.options, operands + o.operands, o.bad)
  {
  }
}
