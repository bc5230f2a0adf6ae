/** The schema sweep: raw values split into lists, the Cartesian product of the lists printed
    as lines of assignments, and a printed line loaded back into shell variables. */
module SchemaSweep {
  import opened Basics

  // ------------------------------------------------------------------ raw values

  predicate IsBlank(c: char)
  {
    c == ' ' || c == '\t'
  }

  /** The words of one line, cut at blanks. `word` is the word under way. */
  function Words(s: string, word: string): seq<string>
    decreases s
  {
    if s == "" then (if word == "" then [] else [word])
    else if IsBlank(s[0]) then (if word == "" then [] else [word]) + Words(s[1..], "")
    else Words(s[1..], word + [s[0]])
  }

  function FirstLine(s: string): string
  {
    if s == "" || s[0] == '\n' then "" else [s[0]] + FirstLine(s[1..])
  }

  /** `schema_split_raw_values`: `read` takes the first line only, and no words make one
      empty entry. */
  function SplitRaw(raw: string): (values: seq<string>)
    ensures values != []
  {
    var words := Words(FirstLine(raw), "");
    if words == [] then [""] else words
  }

  predicate IsWord(w: string)
  {
    w != "" && forall i :: 0 <= i < |w| ==> w[i] != ' ' && w[i] != '\t' && w[i] != '\n'
  }

  function Spaced(words: seq<string>): string
  {
    if words == [] then "" else if |words| == 1 then words[0] else words[0] + " " + Spaced(words[1..])
  }

  lemma {:induction false} WordTaken(w: string, word: string, s: string)
    requires forall i :: 0 <= i < |w| ==> !IsBlank(w[i])
    ensures Words(w + s, word) == Words(s, word + w)
    decreases w
  {
    if w == "" {
      assert w + s == s && word + w == word;
    } else {
      assert (w + s)[1..] == w[1..] + s && (w + s)[0] == w[0];
      WordTaken(w[1..], word + [w[0]], s);
      assert word + [w[0]] + w[1..] == word + w;
    }
  }

  lemma {:induction false} OneLine(s: string)
    requires '\n' !in s
    ensures FirstLine(s) == s
  {
    if s != "" {
      OneLine(s[1..]);
    }
  }

  lemma {:induction false} SpacedWords(words: seq<string>)
    requires forall i :: 0 <= i < |words| ==> IsWord(words[i])
    ensures Words(Spaced(words), "") == words && '\n' !in Spaced(words)
  {
    if |words| == 1 {
      WordTaken(words[0], "", "");
      assert words[0] + "" == words[0] && "" + words[0] == words[0];
    } else if |words| > 1 {
      SpacedWords(words[1..]);
      var rest := " " + Spaced(words[1..]);
      WordTaken(words[0], "", rest);
      assert words[0] + rest == Spaced(words) && "" + words[0] == words[0];
      assert rest[1..] == Spaced(words[1..]);
      assert words == [words[0]] + words[1..];
    }
  }

  lemma {:induction false} WordsAreWords(s: string, word: string)
    requires '\n' !in s && (word == "" || IsWord(word))
    ensures forall i :: 0 <= i < |Words(s, word)| ==> IsWord(Words(s, word)[i])
    decreases s
  {
    if s != "" {
      if IsBlank(s[0]) {
        WordsAreWords(s[1..], "");
      } else {
        WordsAreWords(s[1..], word + [s[0]]);
      }
    }
  }

  lemma {:induction false} FirstLineIsOne(s: string)
    ensures '\n' !in FirstLine(s)
  {
    if s != "" && s[0] != '\n' {
      FirstLineIsOne(s[1..]);
    }
  }

  /** Whatever the raw value, its entries are words of one line, or one empty entry. */
  lemma SplitGivesWords(raw: string)
    ensures SplitRaw(raw) == [""] || forall i :: 0 <= i < |SplitRaw(raw)| ==> IsWord(SplitRaw(raw)[i])
  {
    FirstLineIsOne(raw);
    WordsAreWords(FirstLine(raw), "");
  }

  /** Values written with spaces between them are read back as the same list. */
  lemma SplitsSpacedValues(words: seq<string>)
    requires words != [] && forall i :: 0 <= i < |words| ==> IsWord(words[i])
    ensures SplitRaw(Spaced(words)) == words
  {
    SpacedWords(words);
    OneLine(Spaced(words));
  }

  // -------------------------------------------------------------------- product

  datatype Variable = Variable(name: string, values: seq<string>)

  function Assignment(name: string, value: string): string
  {
    name + "=" + value
  }

  /** `${combo_prefix#;}` */
  function Strip(s: string): string
  {
    if s != "" && s[0] == ';' then s[1..] else s
  }

  /** What `schema_emit_combos_recursive` prints from variable `index` on. */
  function Emit(vars: seq<Variable>, index: nat, prefix: string): seq<string>
    requires index <= |vars|
    decreases |vars| - index, 1, 0
  {
    if index == |vars| then [Strip(prefix)] else EmitEach(vars, index, prefix, |vars[index].values|)
  }

  /** The lines for the first `n` values of a variable. */
  function EmitEach(vars: seq<Variable>, index: nat, prefix: string, n: nat): seq<string>
    requires index < |vars| && n <= |vars[index].values|
    decreases |vars| - index, 0, n
  {
    if n == 0 then []
    else EmitEach(vars, index, prefix, n - 1) +
         Emit(vars, index + 1, prefix + ";" + Assignment(vars[index].name, vars[index].values[n - 1]))
  }

  /** The recursion with its loop. */
  method EmitCombos(vars: seq<Variable>, index: nat, prefix: string) returns (lines: seq<string>)
    requires index <= |vars|
    ensures lines == Emit(vars, index, prefix)
    decreases |vars| - index
  {
    if index >= |vars| {
      return [Strip(prefix)];
    }
    lines := [];
    for n := 0 to |vars[index].values|
      invariant lines == EmitEach(vars, index, prefix, n)
    {
      var next := prefix + ";" + Assignment(vars[index].name, vars[index].values[n]);
      var more := EmitCombos(vars, index + 1, next);
      lines := lines + more;
    }
  }

  /** All choices of one value for each variable, the first variable varying slowest. */
  function Choices(vars: seq<Variable>): seq<seq<string>>
    decreases |vars|, 1, 0
  {
    if vars == [] then [[]] else ChoicesWith(vars, |vars[0].values|)
  }

  function ChoicesWith(vars: seq<Variable>, n: nat): seq<seq<string>>
    requires vars != [] && n <= |vars[0].values|
    decreases |vars|, 0, n
  {
    if n == 0 then [] else ChoicesWith(vars, n - 1) + Prepend(vars[0].values[n - 1], Choices(vars[1..]))
  }

  function Prepend(v: string, choices: seq<seq<string>>): (r: seq<seq<string>>)
    ensures |r| == |choices|
  {
    seq(|choices|, i requires 0 <= i < |choices| => [v] + choices[i])
  }

  function Product(vars: seq<Variable>): nat
  {
    if vars == [] then 1 else |vars[0].values| * Product(vars[1..])
  }

  ghost predicate IsChoice(vars: seq<Variable>, c: seq<string>)
  {
    |c| == |vars| && forall i :: 0 <= i < |vars| ==> c[i] in vars[i].values
  }

  lemma {:induction false} ChoicesCount(vars: seq<Variable>)
    ensures |Choices(vars)| == Product(vars)
  {
    if vars != [] {
      ChoicesCount(vars[1..]);
      ChoicesWithCount(vars, |vars[0].values|);
    }
  }

  lemma {:induction false} ChoicesWithCount(vars: seq<Variable>, n: nat)
    requires vars != [] && n <= |vars[0].values|
    ensures |ChoicesWith(vars, n)| == n * |Choices(vars[1..])|
  {
    if n > 0 {
      ChoicesWithCount(vars, n - 1);
      assert n * |Choices(vars[1..])| == (n - 1) * |Choices(vars[1..])| + |Choices(vars[1..])|;
    }
  }

  /** Every choice is among them, and nothing else. */
  lemma {:induction false} ChoicesAre(vars: seq<Variable>, c: seq<string>)
    ensures c in Choices(vars) <==> IsChoice(vars, c)
    decreases |vars|, 1, 0
  {
    if vars != [] {
      ChoicesWithAre(vars, |vars[0].values|, c);
      assert vars[0].values[..|vars[0].values|] == vars[0].values;
      if c != [] {
        HeadAndTail(vars, c);
      }
    }
  }

  lemma HeadAndTail(vars: seq<Variable>, c: seq<string>)
    requires vars != [] && c != []
    ensures IsChoice(vars, c) <==> c[0] in vars[0].values && IsChoice(vars[1..], c[1..])
  {
    if c[0] in vars[0].values && IsChoice(vars[1..], c[1..]) {
      forall i | 0 <= i < |vars|
        ensures c[i] in vars[i].values
      {
        assert i > 0 ==> c[1..][i - 1] in vars[1..][i - 1].values;
      }
    }
  }

  lemma {:induction false} ChoicesWithAre(vars: seq<Variable>, n: nat, c: seq<string>)
    requires vars != [] && n <= |vars[0].values|
    ensures c in ChoicesWith(vars, n) <==> c != [] && c[0] in vars[0].values[..n] && IsChoice(vars[1..], c[1..])
    decreases |vars|, 0, n
  {
    if n > 0 {
      ChoicesWithAre(vars, n - 1, c);
      var v, rest := vars[0].values[n - 1], Choices(vars[1..]);
      assert vars[0].values[..n] == vars[0].values[..n - 1] + [v];
      PrependAre(v, rest, c);
      if c != [] {
        ChoicesAre(vars[1..], c[1..]);
      }
    }
  }

  lemma PrependAre(v: string, choices: seq<seq<string>>, c: seq<string>)
    ensures c in Prepend(v, choices) <==> c != [] && c[0] == v && c[1..] in choices
  {
    if c != [] && c[0] == v && c[1..] in choices {
      var i :| 0 <= i < |choices| && choices[i] == c[1..];
      assert Prepend(v, choices)[i] == c;
    }
  }

  /** When no list repeats a value, no choice is repeated. */
  lemma {:induction false} ChoicesDistinct(vars: seq<Variable>)
    requires forall i :: 0 <= i < |vars| ==> NoRepeats(vars[i].values)
    ensures NoRepeats(Choices(vars))
    decreases |vars|, 1, 0
  {
    if vars != [] {
      ChoicesDistinct(vars[1..]);
      ChoicesWithDistinct(vars, |vars[0].values|);
    }
  }

  lemma {:induction false} ChoicesWithDistinct(vars: seq<Variable>, n: nat)
    requires vars != [] && n <= |vars[0].values| && NoRepeats(vars[0].values) && NoRepeats(Choices(vars[1..]))
    ensures NoRepeats(ChoicesWith(vars, n))
  {
    if n > 0 {
      ChoicesWithDistinct(vars, n - 1);
      var v := vars[0].values[n - 1];
      var before, more := ChoicesWith(vars, n - 1), Prepend(v, Choices(vars[1..]));
      forall i, j | 0 <= i < j < |more|
        ensures more[i] != more[j]
      {
        assert more[i][1..] == Choices(vars[1..])[i] && more[j][1..] == Choices(vars[1..])[j];
      }
      forall i, j | 0 <= i < |before| && 0 <= j < |more|
        ensures before[i] != more[j]
      {
        ChoicesWithAre(vars, n - 1, before[i]);
        assert before[i] in before;
        assert more[j][0] == v && v !in vars[0].values[..n - 1];
      }
    }
  }

  // ------------------------------------------------------------------ the lines

  function Parts(vars: seq<Variable>, c: seq<string>): seq<string>
    requires |c| == |vars|
  {
    seq(|vars|, i requires 0 <= i < |vars| => Assignment(vars[i].name, c[i]))
  }

  function Joined(parts: seq<string>): string
  {
    if parts == [] then "" else ";" + parts[0] + Joined(parts[1..])
  }

  /** The line printed for a choice. */
  function Line(vars: seq<Variable>, c: seq<string>): string
    requires |c| == |vars|
  {
    Strip(Joined(Parts(vars, c)))
  }

  lemma PartsHead(vars: seq<Variable>, c: seq<string>)
    requires |c| == |vars| > 0
    ensures Joined(Parts(vars, c)) == ";" + Assignment(vars[0].name, c[0]) + Joined(Parts(vars[1..], c[1..]))
  {
    assert Parts(vars, c)[1..] == Parts(vars[1..], c[1..]);
  }

  /** The recursion prints one line for each choice, in the order of the choices. */
  lemma {:induction false} EmitPrintsChoices(vars: seq<Variable>, index: nat, prefix: string)
    requires index <= |vars|
    ensures |Emit(vars, index, prefix)| == |Choices(vars[index..])|
    ensures forall i :: 0 <= i < |Choices(vars[index..])| ==>
      |Choices(vars[index..])[i]| == |vars| - index
      && Emit(vars, index, prefix)[i] == Strip(prefix + Joined(Parts(vars[index..], Choices(vars[index..])[i])))
    decreases |vars| - index, 1, 0
  {
    if index == |vars| {
      assert vars[index..] == [];
      assert prefix + "" == prefix;
    } else {
      EmitEachPrints(vars, index, prefix, |vars[index].values|);
    }
  }

  lemma {:induction false} EmitEachPrints(vars: seq<Variable>, index: nat, prefix: string, n: nat)
    requires index < |vars| && n <= |vars[index].values|
    ensures
      var cs := ChoicesWith(vars[index..], n);
      && |EmitEach(vars, index, prefix, n)| == |cs|
      && forall i :: 0 <= i < |cs| ==>
           |cs[i]| == |vars| - index
           && EmitEach(vars, index, prefix, n)[i] == Strip(prefix + Joined(Parts(vars[index..], cs[i])))
    decreases |vars| - index, 0, n
  {
    if n > 0 {
      var here := vars[index..];
      var v := vars[index].values[n - 1];
      var next := prefix + ";" + Assignment(vars[index].name, v);
      assert here[1..] == vars[index + 1..];
      EmitEachPrints(vars, index, prefix, n - 1);
      EmitPrintsChoices(vars, index + 1, next);
      var rest := Choices(here[1..]);
      assert ChoicesWith(here, n) == ChoicesWith(here, n - 1) + Prepend(v, rest);
      assert EmitEach(vars, index, prefix, n) == EmitEach(vars, index, prefix, n - 1) + Emit(vars, index + 1, next);
      hide *;
      forall i | 0 <= i < |rest|
        ensures |Prepend(v, rest)[i]| == |here|
        ensures Strip(next + Joined(Parts(here[1..], rest[i]))) ==
            Strip(prefix + Joined(Parts(here, Prepend(v, rest)[i])))
      {
        PrefixMoves(here, v, rest, i, prefix);
      }
    }
  }

  lemma PrefixMoves(here: seq<Variable>, v: string, rest: seq<seq<string>>, i: nat, prefix: string)
    requires here != [] && i < |rest| && |rest[i]| == |here| - 1
    ensures |Prepend(v, rest)[i]| == |here|
    ensures
      prefix + ";" + Assignment(here[0].name, v) + Joined(Parts(here[1..], rest[i])) ==
      prefix + Joined(Parts(here, Prepend(v, rest)[i]))
  {
    PartsHead(here, [v] + rest[i]);
    assert ([v] + rest[i])[1..] == rest[i];
    hide Joined, Parts, Assignment;
    var tail := Joined(Parts(here[1..], rest[i]));
    assert prefix + ";" + Assignment(here[0].name, v) + tail == prefix + (";" + Assignment(here[0].name, v) + tail);
  }

  /** The sweep is the Cartesian product: as many lines as the product of the list lengths,
      the line of every choice, and no other line. */
  lemma SweepIsProduct(vars: seq<Variable>, line: string)
    ensures |Emit(vars, 0, "")| == Product(vars)
    ensures line in Emit(vars, 0, "") <==> exists c :: IsChoice(vars, c) && line == Line(vars, c)
  {
    ChoicesCount(vars);
    EmitPrintsChoices(vars, 0, "");
    var cs, lines := Choices(vars), Emit(vars, 0, "");
    assert vars[0..] == vars;
    forall i | 0 <= i < |cs|
      ensures lines[i] == Line(vars, cs[i]) && IsChoice(vars, cs[i])
    {
      ChoicesAre(vars, cs[i]);
      assert "" + Joined(Parts(vars, cs[i])) == Joined(Parts(vars, cs[i]));
    }
    if exists c :: IsChoice(vars, c) && line == Line(vars, c) {
      var c :| IsChoice(vars, c) && line == Line(vars, c);
      ChoicesAre(vars, c);
      var i :| 0 <= i < |cs| && cs[i] == c;
      assert lines[i] == line;
    }
  }

  // -------------------------------------------------------------------- loading

  lemma {:induction false} IndexAfter(a: string, c: char, b: string)
    requires c !in a && (b != "" ==> b[0] == c)
    ensures IndexOf(a + b, c) == |a|
  {
    if a == "" {
      assert a + b == b;
    } else {
      assert (a + b)[1..] == a[1..] + b;
      IndexAfter(a[1..], c, b);
    }
  }

  /** The fields of a line cut at semicolons. */
  function Fields(s: string): seq<string>
  {
    var i := IndexOf(s, ';');
    if i == |s| then [s] else [s[..i]] + Fields(s[i + 1..])
  }

  /** The function's own local variables hide globals of the same name. */
  const LOCALS := {"combo_line", "assignment", "key", "value", "assignments"}

  function KeyOf(assignment: string): string
  {
    assignment[..IndexOf(assignment, '=')]
  }

  /** `${assignment#*=}` is the whole word when there is no equals sign. */
  function ValueOf(assignment: string): string
  {
    var i := IndexOf(assignment, '=');
    if i == |assignment| then assignment else assignment[i + 1..]
  }

  type Globals = map<string, string>

  /** The shell: its global variables, and whether it is still running. */
  datatype Env = Env(globals: Globals, running: bool)

  predicate IsLetter(c: char)
  {
    'a' <= c <= 'z' || 'A' <= c <= 'Z' || c == '_'
  }

  /** The names `unset` and `printf -v` take. */
  predicate IsIdentifier(name: string)
  {
    name != "" && IsLetter(name[0]) && forall i :: 0 <= i < |name| ==> IsLetter(name[i]) || '0' <= name[i] <= '9'
  }

  const DIGITS := "0123456789"
  const LOWER := "abcdefghijklmnopqrstuvwxyz"
  const UPPER := "ABCDEFGHIJKLMNOPQRSTUVWXYZ"

  lemma LowerAre(c: char)
    ensures 'a' <= c <= 'z' <==> c in LOWER
  {
    assert |LOWER| == 26;
    assert forall i :: 0 <= i < 26 ==> LOWER[i] as int == 'a' as int + i;
    if 'a' <= c <= 'z' {
      assert LOWER[c as int - 'a' as int] == c;
    }
  }

  lemma UpperAre(c: char)
    ensures 'A' <= c <= 'Z' <==> c in UPPER
  {
    assert |UPPER| == 26;
    assert forall i :: 0 <= i < 26 ==> UPPER[i] as int == 'A' as int + i;
    if 'A' <= c <= 'Z' {
      assert UPPER[c as int - 'A' as int] == c;
    }
  }

  lemma DigitsAre(c: char)
    ensures '0' <= c <= '9' <==> c in DIGITS
  {
    if '0' <= c <= '9' {
      assert DIGITS[c as int - '0' as int] == c;
    }
  }

  /** The identifiers are the words of letters, digits and underscores that do not begin with a
      digit. */
  lemma IdentifiersAre(name: string)
    ensures IsIdentifier(name) <==>
        name != "" && name[0] !in DIGITS &&
        forall i :: 0 <= i < |name| ==> name[i] in LOWER || name[i] in UPPER || name[i] in DIGITS || name[i] == '_'
  {
    forall i | 0 <= i < |name|
      ensures IsLetter(name[i]) <==> name[i] in LOWER || name[i] in UPPER || name[i] == '_'
      ensures '0' <= name[i] <= '9' <==> name[i] in DIGITS
      ensures IsLetter(name[i]) ==> name[i] !in DIGITS
    {
      LowerAre(name[i]);
      UpperAre(name[i]);
      DigitsAre(name[i]);
    }
    hide IsLetter, LOWER, UPPER, DIGITS;
  }

  /** Names on which the two commands fail: no identifiers, and the two locals that are read
      again after they have been unset. */
  predicate Fails(name: string)
  {
    !IsIdentifier(name) || name == "key" || name == "value"
  }

  /** One assignment. It reaches the globals unless the name is refused or a local has it. In
      a strict shell, one with `set -eu` as the submit manager has it, a failure is the end. */
  function Assign(e: Env, assignment: string, strict: bool): Env
  {
    var name := KeyOf(assignment);
    if !e.running || assignment == "" then e
    else if Fails(name) then e.(running := !strict)
    else if name in LOCALS then e
    else e.(globals := e.globals[name := ValueOf(assignment)])
  }

  function AssignAll(e: Env, assignments: seq<string>, strict: bool): Env
  {
    if assignments == [] then e
    else Assign(AssignAll(e, assignments[..|assignments| - 1], strict), assignments[|assignments| - 1], strict)
  }

  /** Loading a line: `read` takes the first line of it only. */
  function Load(g: Globals, line: string, strict: bool): Env
  {
    AssignAll(Env(g, true), Fields(FirstLine(line)), strict)
  }

  class Shell {
    const strict: bool
    var globals: Globals
    var running: bool

    /** `schema_load_combo_assignments`. */
    method LoadCombo(line: string)
      requires running
      modifies this
      ensures Env(globals, running) == Load(old(globals), line, strict)
    {
      var assignments := Fields(FirstLine(line));
      for i := 0 to |assignments|
        invariant Env(globals, running) == AssignAll(Env(old(globals), true), assignments[..i], strict)
      {
        AssignNext(Env(old(globals), true), assignments, i, strict);
        if running && assignments[i] != "" {
          var key := KeyOf(assignments[i]);
          if Fails(key) {
            running := !strict;
          } else if key !in LOCALS {
            globals := globals - {key};
            globals := globals[key := ValueOf(assignments[i])];
          }
        }
      }
      assert assignments[..|assignments|] == assignments;
    }
  }

  /** Names and values a line can carry; a name with a bracket would be an array's element. */
  ghost predicate Printable(vars: seq<Variable>, c: seq<string>)
  {
    && |c| == |vars|
    && (forall i :: 0 <= i < |vars| ==> PlainName(vars[i].name))
    && (forall i, j :: 0 <= i < j < |vars| ==> vars[i].name != vars[j].name)
    && (forall i :: 0 <= i < |c| ==> ';' !in c[i] && '\n' !in c[i])
  }

  predicate PlainName(name: string)
  {
    name != "" && ';' !in name && '=' !in name && '[' !in name && '\n' !in name
  }

  lemma AssignmentParts(name: string, value: string)
    requires '=' !in name
    ensures KeyOf(Assignment(name, value)) == name && ValueOf(Assignment(name, value)) == value
    ensures Assignment(name, value) != ""
  {
    assert Assignment(name, value) == name + ("=" + value);
    IndexAfter(name, '=', "=" + value);
  }

  lemma {:induction false} FieldsOfJoined(parts: seq<string>)
    requires parts != [] && forall i :: 0 <= i < |parts| ==> ';' !in parts[i]
    ensures Fields(Joined(parts)[1..]) == parts
  {
    var rest := Joined(parts[1..]);
    var s := parts[0] + rest;
    assert Joined(parts)[1..] == s;
    assert parts == [parts[0]] + parts[1..];
    if |parts| > 1 {
      FieldsOfJoined(parts[1..]);
      assert rest[0] == ';';
    }
    hide Joined;
    FirstField(parts[0], rest);
  }

  lemma FirstField(a: string, rest: string)
    requires ';' !in a && (rest != "" ==> rest[0] == ';')
    ensures Fields(a + rest) == if rest == "" then [a] else [a] + Fields(rest[1..])
  {
    var s := a + rest;
    IndexAfter(a, ';', rest);
    assert s[..|a|] == a;
    if rest == "" {
      assert s == a;
    } else {
      assert s[|a| + 1..] == rest[1..];
    }
  }

  lemma PartsAreClean(vars: seq<Variable>, c: seq<string>)
    requires Printable(vars, c)
    ensures forall i :: 0 <= i < |vars| ==> ';' !in Parts(vars, c)[i] && '\n' !in Parts(vars, c)[i]
  {
    forall i | 0 <= i < |vars|
      ensures ';' !in Parts(vars, c)[i] && '\n' !in Parts(vars, c)[i]
    {
      assert PlainName(vars[i].name) && ';' !in c[i] && '\n' !in c[i];
    }
  }

  lemma {:induction false} JoinedIsOneLine(parts: seq<string>)
    requires forall i :: 0 <= i < |parts| ==> '\n' !in parts[i]
    ensures '\n' !in Joined(parts)
  {
    if parts != [] {
      JoinedIsOneLine(parts[1..]);
    }
  }

  /** A line's fields are its assignments; the line without variables has one empty field. */
  lemma FieldsOfLine(vars: seq<Variable>, c: seq<string>)
    requires Printable(vars, c)
    ensures FirstLine(Line(vars, c)) == Line(vars, c)
    ensures Fields(Line(vars, c)) == if vars == [] then [""] else Parts(vars, c)
  {
    PartsAreClean(vars, c);
    JoinedIsOneLine(Parts(vars, c));
    OneLine(Line(vars, c));
    if vars != [] {
      FieldsOfJoined(Parts(vars, c));
      assert Joined(Parts(vars, c))[0] == ';';
    }
  }

  /** Does a strict shell get past the first `n` variables? */
  ghost predicate Passable(vars: seq<Variable>, n: nat, strict: bool)
    requires n <= |vars|
  {
    strict ==> forall i :: 0 <= i < n ==> !Fails(vars[i].name)
  }

  /** Does loading reach the variable and assign it? */
  ghost predicate Assigned(vars: seq<Variable>, i: nat, strict: bool)
    requires i < |vars|
  {
    Passable(vars, i, strict) && !Fails(vars[i].name) && vars[i].name !in LOCALS
  }

  function Lookup(g: Globals, name: string): Option<string>
  {
    if name in g then Some(g[name]) else None
  }

  lemma OneAssignment(e: Env, n: string, v: string, name: string, strict: bool)
    requires n != "" && '=' !in n
    ensures
      var after := Assign(e, Assignment(n, v), strict);
      && (after.running <==> e.running && (strict ==> !Fails(n)))
      && Lookup(after.globals, name) ==
         if e.running && !Fails(n) && n !in LOCALS && n == name then Some(v) else Lookup(e.globals, name)
  {
    AssignmentParts(n, v);
  }

  /** The value the last of the first `n` assignments leaves, if one reaches the variable. */
  ghost function LastAssigned(
      vars: seq<Variable>, c: seq<string>, g: Globals, strict: bool, n: nat, name: string): Option<string>
    requires |c| == |vars| && n <= |vars|
  {
    if n == 0 then Lookup(g, name)
    else if Assigned(vars, n - 1, strict) && vars[n - 1].name == name then Some(c[n - 1])
    else LastAssigned(vars, c, g, strict, n - 1, name)
  }

  lemma PassNext(vars: seq<Variable>, i: nat, strict: bool)
    requires i < |vars|
    ensures Passable(vars, i + 1, strict) <==> Passable(vars, i, strict) && (strict ==> !Fails(vars[i].name))
    ensures Assigned(vars, i, strict) <==>
            Passable(vars, i, strict) && !Fails(vars[i].name) && vars[i].name !in LOCALS
  {
  }

  lemma {:induction false} AssignedSoFar(
      vars: seq<Variable>, c: seq<string>, g: Globals, strict: bool, n: nat, name: string)
    requires Printable(vars, c) && n <= |vars|
    ensures
      var after := AssignAll(Env(g, true), Parts(vars, c)[..n], strict);
      && (after.running <==> Passable(vars, n, strict))
      && Lookup(after.globals, name) == LastAssigned(vars, c, g, strict, n, name)
  {
    hide AssignAll, Assign, Assignment, Fails, Passable, Lookup, Assigned, KeyOf, ValueOf;
    var parts := Parts(vars, c);
    AssignNone(Env(g, true), parts, strict);
    if n == 0 {
      assert Passable(vars, 0, strict) by { PassNone(vars, strict); }
    } else {
      AssignedSoFar(vars, c, g, strict, n - 1, name);
      AssignNext(Env(g, true), parts, n - 1, strict);
      assert parts[n - 1] == Assignment(vars[n - 1].name, c[n - 1]) && PlainName(vars[n - 1].name);
      hide Parts, Printable;
      OneAssignment(AssignAll(Env(g, true), parts[..n - 1], strict), vars[n - 1].name, c[n - 1], name, strict);
      PassNext(vars, n - 1, strict);
    }
  }

  lemma AssignNone(e: Env, assignments: seq<string>, strict: bool)
    ensures AssignAll(e, assignments[..0], strict) == e
  {
  }

  lemma AssignNext(e: Env, assignments: seq<string>, i: nat, strict: bool)
    requires i < |assignments|
    ensures AssignAll(e, assignments[..i + 1], strict) ==
            Assign(AssignAll(e, assignments[..i], strict), assignments[i], strict)
  {
    assert assignments[..i + 1][..i] == assignments[..i];
  }

  lemma PassNone(vars: seq<Variable>, strict: bool)
    ensures Passable(vars, 0, strict)
  {
  }

  /** With distinct names that is the variable's own choice, or what was there before. */
  lemma {:induction false} OwnChoice(
      vars: seq<Variable>, c: seq<string>, g: Globals, strict: bool, n: nat, name: string)
    requires Printable(vars, c) && n <= |vars|
    ensures forall i :: 0 <= i < n && vars[i].name == name ==>
      LastAssigned(vars, c, g, strict, n, name) == if Assigned(vars, i, strict) then Some(c[i]) else Lookup(g, name)
    ensures (forall i :: 0 <= i < n ==> vars[i].name != name) ==>
      LastAssigned(vars, c, g, strict, n, name) == Lookup(g, name)
  {
    hide Assigned, Lookup;
    if n > 0 {
      OwnChoice(vars, c, g, strict, n - 1, name);
      assert forall i :: 0 <= i < n - 1 ==> vars[i].name != vars[n - 1].name;
    }
  }

  /** Loading a printed line gives every variable that is assigned its chosen value, whatever
      was loaded before, and touches nothing else; a strict shell gets to the end of it if and
      only if no name makes the commands fail. */
  lemma LoadRestoresChoice(vars: seq<Variable>, c: seq<string>, g: Globals, strict: bool, name: string)
    requires Printable(vars, c)
    ensures
      var after := Load(g, Line(vars, c), strict);
      && (after.running <==> Passable(vars, |vars|, strict))
      && (forall i :: 0 <= i < |vars| && vars[i].name == name ==>
            Lookup(after.globals, name) == if Assigned(vars, i, strict) then Some(c[i]) else Lookup(g, name))
      && ((forall i :: 0 <= i < |vars| ==> vars[i].name != name) ==> Lookup(after.globals, name) == Lookup(g, name))
  {
    FieldsOfLine(vars, c);
    OwnChoice(vars, c, g, strict, |vars|, name);
    if vars == [] {
      assert AssignAll(Env(g, true), [""], strict) == Env(g, true) by {
        assert [""][..0] == [];
      }
    } else {
      AssignedSoFar(vars, c, g, strict, |vars|, name);
      assert Parts(vars, c)[..|vars|] == Parts(vars, c);
      hide Printable, Assigned, Passable, Lookup, AssignAll;
    }
  }

  /** Exactly when a variable is restored: its name is an identifier and none of the locals,
      and, in a strict shell, no name before it has ended the load; or it already had the
      chosen value. */
  lemma RestoredIff(vars: seq<Variable>, c: seq<string>, g: Globals, strict: bool, i: nat)
    requires Printable(vars, c) && i < |vars|
    ensures
      var name := vars[i].name;
      Lookup(Load(g, Line(vars, c), strict).globals, name) == Some(c[i]) <==>
      || (IsIdentifier(name) && name !in LOCALS && Passable(vars, i, strict))
      || Lookup(g, name) == Some(c[i])
  {
    LoadRestoresChoice(vars, c, g, strict, vars[i].name);
    assert Assigned(vars, i, strict) <==>
           IsIdentifier(vars[i].name) && vars[i].name !in LOCALS && Passable(vars, i, strict);
  }

  /** Different choices are printed as different lines. */
  lemma LinesTellChoicesApart(vars: seq<Variable>, c: seq<string>, d: seq<string>)
    requires Printable(vars, c) && Printable(vars, d) && Line(vars, c) == Line(vars, d)
    ensures c == d
  {
    FieldsOfLine(vars, c);
    FieldsOfLine(vars, d);
    forall i | 0 <= i < |vars|
      ensures c[i] == d[i]
    {
      AssignmentParts(vars[i].name, c[i]);
      AssignmentParts(vars[i].name, d[i]);
      assert Parts(vars, c)[i] == Parts(vars, d)[i];
    }
  }

  /** From end to end: when names are printable and lists repeat nothing, each choice is on
      exactly one line of the sweep. */
  lemma EachChoiceOnce(vars: seq<Variable>)
    requires forall i :: 0 <= i < |vars| ==> NoRepeats(vars[i].values)
    requires forall c :: IsChoice(vars, c) ==> Printable(vars, c)
    ensures NoRepeats(Emit(vars, 0, ""))
  {
    EmitPrintsChoices(vars, 0, "");
    ChoicesDistinct(vars);
    assert vars[0..] == vars;
    var cs, lines := Choices(vars), Emit(vars, 0, "");
    forall i, j | 0 <= i < j < |lines|
      ensures lines[i] != lines[j]
    {
      ChoicesAre(vars, cs[i]);
      ChoicesAre(vars, cs[j]);
      assert "" + Joined(Parts(vars, cs[i])) == Joined(Parts(vars, cs[i]));
      assert "" + Joined(Parts(vars, cs[j])) == Joined(Parts(vars, cs[j]));
      if lines[i] == lines[j] {
        LinesTellChoicesApart(vars, cs[i], cs[j]);
      }
    }
  }
}
