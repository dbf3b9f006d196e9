/** Descending the console's command tree in place, over argv and the line buffer it points into (cli_cmd.c). */
module CliDispatch {
  import opened Common

  datatype Cmd = Cmd(name: string, hasOperation: bool, subs: seq<Cmd>)

  /** The C string at p: the characters up to the next NUL, or to the end of the buffer. */
  function Str(mem: seq<char>, p: nat): string
    decreases |mem| - p
  {
    if p >= |mem| || mem[p] == '\0' then [] else [mem[p]] + Str(mem, p + 1)
  }

  /** It holds no NUL and ends at one, or at the end of the buffer. */
  lemma {:induction false} StrEndsAtNul(mem: seq<char>, p: nat)
    requires p <= |mem|
    ensures var n := |Str(mem, p)|;
            && p + n <= |mem| && Str(mem, p) == mem[p..p + n] && '\0' !in Str(mem, p)
            && (p + n < |mem| ==> mem[p + n] == '\0')
    decreases |mem| - p
  {
    if p < |mem| && mem[p] != '\0' {
      StrEndsAtNul(mem, p + 1);
      var n := |Str(mem, p)|;
      assert Str(mem, p) == [mem[p]] + Str(mem, p + 1);
      assert mem[p..p + n] == [mem[p]] + mem[p + 1..p + n];
    } else {
      assert mem[p..p] == [];
    }
  }

  /** What is run at the end, and on which part of argv; a command without operation prints its help. */
  datatype Outcome = Run(cmd: Cmd, at: nat, argc: nat) | Help(cmd: Cmd)

  // ------------------------------------------------------------ the pure walk

  predicate IsOption(token: string) {
    token != [] && token[0] == '-'
  }

  /** The first sub-command of that name. */
  function FindSub(subs: seq<Cmd>, name: string): (r: Option<nat>)
    ensures r.Some? ==> r.value < |subs| && subs[r.value].name == name
                        && forall j | 0 <= j < r.value :: subs[j].name != name
    ensures r.None? ==> forall j | 0 <= j < |subs| :: subs[j].name != name
  {
    if subs == [] then None
    else if subs[0].name == name then Some(0)
    else match FindSub(subs[1..], name) { case None => None case Some(i) => Some(i + 1) }
  }

  /** How many levels the tokens select, and the command they end at. */
  function Descend(cmd: Cmd, tokens: seq<string>): (Cmd, nat)
    decreases |tokens|
  {
    if |tokens| > 1 && !IsOption(tokens[1]) && FindSub(cmd.subs, tokens[1]).Some? then
      var (c, k) := Descend(cmd.subs[FindSub(cmd.subs, tokens[1]).value], tokens[1..]);
      (c, k + 1)
    else (cmd, 0)
  }

  lemma {:induction false} DescendStops(cmd: Cmd, tokens: seq<string>)
    ensures Descend(cmd, tokens).1 < |tokens| || tokens == []
    ensures var (c, k) := Descend(cmd, tokens);
            tokens != [] && k + 1 < |tokens| ==> IsOption(tokens[k + 1]) || FindSub(c.subs, tokens[k + 1]).None?
    decreases |tokens|
  {
    if |tokens| > 1 && !IsOption(tokens[1]) && FindSub(cmd.subs, tokens[1]).Some? {
      DescendStops(cmd.subs[FindSub(cmd.subs, tokens[1]).value], tokens[1..]);
    }
  }

  /** From `cmd` the names lead, each to the first sub-command of that name, to `end`. */
  predicate Leads(cmd: Cmd, names: seq<string>, end: Cmd)
    decreases |names|
  {
    if names == [] then cmd == end
    else exists i | 0 <= i < |cmd.subs| ::
           && cmd.subs[i].name == names[0] && (forall j | 0 <= j < i :: cmd.subs[j].name != names[0])
           && Leads(cmd.subs[i], names[1..], end)
  }

  /** No sub-command of that name. */
  predicate NoSub(cmd: Cmd, name: string) {
    forall i | 0 <= i < |cmd.subs| :: cmd.subs[i].name != name
  }

  /**
   * The k tokens behind the first lead from the command to the one selected, none
   * of them an option, and the next one, if any, is an option or leads no further.
   */
  predicate Follows(cmd: Cmd, tokens: seq<string>, c: Cmd, k: nat) {
    && k < |tokens| && Leads(cmd, tokens[1..k + 1], c)
    && (forall i | 1 <= i <= k :: tokens[i] == [] || tokens[i][0] != '-')
    && (k + 1 < |tokens| ==> (tokens[k + 1] != [] && tokens[k + 1][0] == '-') || NoSub(c, tokens[k + 1]))
  }

  /** The walk follows the tokens as far as they lead. */
  lemma {:induction false} DescendFollows(cmd: Cmd, tokens: seq<string>)
    requires tokens != []
    ensures var (c, k) := Descend(cmd, tokens); Follows(cmd, tokens, c, k)
    decreases |tokens|
  {
    if |tokens| > 1 && !IsOption(tokens[1]) && FindSub(cmd.subs, tokens[1]).Some? {
      var at := FindSub(cmd.subs, tokens[1]).value;
      DescendFollows(cmd.subs[at], tokens[1..]);
      var (c, k) := Descend(cmd.subs[at], tokens[1..]);
      FollowsOneMore(cmd, at, tokens, c, k);
    } else {
      assert tokens[1..1] == [];
    }
  }

  lemma LeadsOneMore(cmd: Cmd, at: nat, names: seq<string>, end: Cmd)
    requires names != [] && FindSub(cmd.subs, names[0]) == Some(at) && Leads(cmd.subs[at], names[1..], end)
    ensures Leads(cmd, names, end)
  {
  }

  lemma FollowsOneMore(cmd: Cmd, at: nat, tokens: seq<string>, c: Cmd, k: nat)
    requires |tokens| > 1 && !IsOption(tokens[1]) && FindSub(cmd.subs, tokens[1]) == Some(at)
    requires Follows(cmd.subs[at], tokens[1..], c, k)
    ensures Follows(cmd, tokens, c, k + 1)
  {
    assert Leads(cmd, tokens[1..k + 2], c) by {
      assert tokens[1..k + 2][1..] == tokens[1..][1..k + 1];
      LeadsOneMore(cmd, at, tokens[1..k + 2], c);
    }
    forall i | 1 <= i <= k + 1
      ensures tokens[i] == [] || tokens[i][0] != '-'
    {
      if i > 1 { assert tokens[i] == tokens[1..][i - 1]; }
    }
  }

  // ------------------------------------------------------------ the walk in place

  function Tokens(mem: seq<char>, argv: seq<nat>): (t: seq<string>)
    ensures |t| == |argv| && forall i | 0 <= i < |argv| :: t[i] == Str(mem, argv[i])
  {
    seq(|argv|, i requires 0 <= i < |argv| => Str(mem, argv[i]))
  }

  /** Later words lie behind earlier ones; the first one may be anywhere. */
  predicate InOrder(mem: seq<char>, argv: seq<nat>) {
    && (forall i | 0 <= i < |argv| :: argv[i] < |mem|)
    && (forall i | 1 <= i < |argv| :: argv[i] >= 1)
    && (forall i, j | 1 <= i < j < |argv| :: argv[i] <= argv[j])
  }

  lemma {:induction false} StrBehindWrite(mem: seq<char>, q: nat, c: char, p: nat)
    requires q < p && q < |mem|
    ensures Str(mem[q := c], p) == Str(mem, p)
    decreases |mem| - p
  {
    if p < |mem| { StrBehindWrite(mem, q, c, p + 1); }
  }

  /** The line buffer after k levels: the character in front of each consumed word is a blank. */
  function Blanked(mem: seq<char>, argv: seq<nat>, k: nat): (m: seq<char>)
    requires InOrder(mem, argv) && k < |argv|
    ensures |m| == |mem|
  {
    if k == 0 then mem else Blanked(mem, argv, k - 1)[argv[k] - 1 := ' ']
  }

  /** Only the k characters in front of the consumed words have changed, all to blanks. */
  lemma {:induction false} BlankedAt(mem: seq<char>, argv: seq<nat>, k: nat, q: nat)
    requires InOrder(mem, argv) && k < |argv| && q < |mem|
    ensures Blanked(mem, argv, k)[q] == if exists i :: 1 <= i <= k && argv[i] == q + 1 then ' ' else mem[q]
    decreases k
  {
    if k > 0 {
      BlankedAt(mem, argv, k - 1, q);
    }
  }

  /** One level down: the word is blanked off and its slot takes over the program name. */
  function OneDown(argv: seq<nat>): seq<nat>
    requires |argv| > 1
  {
    [argv[0]] + argv[2..]
  }

  lemma OneDownTokens(mem: seq<char>, argv: seq<nat>)
    requires |argv| > 1 && InOrder(mem, argv)
    ensures var m := mem[argv[1] - 1 := ' '];
            InOrder(m, OneDown(argv)) && Tokens(m, OneDown(argv))[1..] == Tokens(mem, argv)[2..]
  {
    var m, down := mem[argv[1] - 1 := ' '], OneDown(argv);
    forall i | 1 <= i < |down|
      ensures Str(m, down[i]) == Str(mem, argv[i + 1])
    {
      StrBehindWrite(mem, argv[1] - 1, ' ', argv[i + 1]);
    }
    assert Tokens(m, down)[1..] == Tokens(mem, argv)[2..];
  }

  /** The first token plays no part in the choice. */
  lemma {:induction false} FirstTokenIgnored(cmd: Cmd, s: seq<string>, t: seq<string>)
    requires s != [] && t != [] && s[1..] == t[1..]
    ensures Descend(cmd, s) == Descend(cmd, t)
  {
    assert |s| == |t|;
    if |s| > 1 {
      assert s[1] == s[1..][0] && t[1] == t[1..][0];
    }
  }

  lemma {:induction false} BlankedOneDown(mem: seq<char>, argv: seq<nat>, k: nat)
    requires |argv| > 1 && InOrder(mem, argv) && 1 <= k < |argv|
    requires InOrder(mem[argv[1] - 1 := ' '], OneDown(argv))
    ensures Blanked(mem, argv, k) == Blanked(mem[argv[1] - 1 := ' '], OneDown(argv), k - 1)
    decreases k
  {
    if k > 1 {
      BlankedOneDown(mem, argv, k - 1);
    }
  }

  /** strcmp(name, mem + p) == 0 */
  method Matches(name: string, mem: array<char>, p: nat) returns (equal: bool)
    requires p <= mem.Length && '\0' !in name
    ensures equal <==> name == Str(mem[..], p)
  {
    var i := 0;
    while i < |name| && p + i < mem.Length && mem[p + i] == name[i]
      invariant 0 <= i <= |name| && p + i <= mem.Length
      invariant name == Str(mem[..], p) <==> name[i..] == Str(mem[..], p + i)
    {
      assert name[i] != '\0' by {
        assert name[i] in name;
      }
      assert name[i..] == [name[i]] + name[i + 1..];
      i := i + 1;
    }
    equal := i == |name| && (p + i == mem.Length || mem[p + i] == '\0');
    if i < |name| && p + i < mem.Length && mem[p + i] != '\0' {
      assert Str(mem[..], p + i)[0] == mem[p + i];
    }
  }

  ghost predicate NulFree(cmd: Cmd) {
    '\0' !in cmd.name && forall i | 0 <= i < |cmd.subs| :: NulFree(cmd.subs[i])
  }

  /**
   * From line buffer m0 and arguments a0 (the part of argv from `base` on) the
   * dispatch ended as it should: at the command the pure walk selects, run on
   * the slot that holds the original argv[0], as all the consumed ones do,
   * followed by the arguments behind the consumed words; apart from the blanks
   * the line buffer is unchanged.
   */
  ghost predicate Dispatched(cmd: Cmd, base: nat, m0: seq<char>, a0: seq<nat>, outcome: Outcome, m1: seq<char>,
                             a1: seq<nat>)
    requires a0 != [] && InOrder(m0, a0)
  {
    var (c, k) := Descend(cmd, Tokens(m0, a0));
    && k < |a0| == |a1|
    && outcome == (if c.hasOperation then Run(c, base + k, |a0| - k) else Help(c))
    && (forall i | 0 <= i <= k :: a1[i] == a0[0]) && a1[k + 1..] == a0[k + 1..]
    && m1 == Blanked(m0, a0, k)
  }

  lemma DescendStep(cmd: Cmd, sub: nat, tokens: seq<string>, down: seq<string>)
    requires |tokens| > 1 && !IsOption(tokens[1]) && FindSub(cmd.subs, tokens[1]) == Some(sub)
    requires down != [] && down[1..] == tokens[2..]
    ensures var (c, k) := Descend(cmd.subs[sub], down); Descend(cmd, tokens) == (c, k + 1)
  {
    assert tokens[1..][1..] == tokens[2..];
    FirstTokenIgnored(cmd.subs[sub], down, tokens[1..]);
  }

  lemma ArgsOneDown(a0: seq<nat>, a1: seq<nat>, k: nat)
    requires k + 1 < |a0| == |a1| && a1[0] == a0[0]
    requires (forall i | 0 <= i <= k :: a1[1..][i] == a0[0]) && a1[1..][k + 1..] == OneDown(a0)[k + 1..]
    ensures (forall i | 0 <= i <= k + 1 :: a1[i] == a0[0]) && a1[k + 2..] == a0[k + 2..]
  {
    forall i | 0 <= i <= k + 1
      ensures a1[i] == a0[0]
    {
      if i > 0 { assert a1[i] == a1[1..][i - 1]; }
    }
    assert a1[k + 2..] == a1[1..][k + 1..];
    assert OneDown(a0)[k + 1..] == a0[k + 2..];
  }

  lemma DispatchedOneDown(cmd: Cmd, sub: nat, base: nat, m0: seq<char>, a0: seq<nat>, outcome: Outcome,
                          m1: seq<char>, a1: seq<nat>)
    requires |a0| > 1 && InOrder(m0, a0) && |a1| == |a0| && a1[0] == a0[0]
    requires !IsOption(Str(m0, a0[1])) && FindSub(cmd.subs, Str(m0, a0[1])) == Some(sub)
    requires InOrder(m0[a0[1] - 1 := ' '], OneDown(a0))
    requires Dispatched(cmd.subs[sub], base + 1, m0[a0[1] - 1 := ' '], OneDown(a0), outcome, m1, a1[1..])
    ensures Dispatched(cmd, base, m0, a0, outcome, m1, a1)
  {
    var down := Tokens(m0[a0[1] - 1 := ' '], OneDown(a0));
    var (c, k) := Descend(cmd.subs[sub], down);
    assert Descend(cmd, Tokens(m0, a0)) == (c, k + 1) by {
      OneDownTokens(m0, a0);
      DescendStep(cmd, sub, Tokens(m0, a0), down);
    }
    assert k + 1 < |a0|;
    assert m1 == Blanked(m0, a0, k + 1) by {
      BlankedOneDown(m0, a0, k + 1);
    }
    ArgsOneDown(a0, a1, k);
    assert outcome == if c.hasOperation then Run(c, base + (k + 1), |a0| - (k + 1)) else Help(c);
  }

  lemma DispatchedHere(cmd: Cmd, base: nat, m0: seq<char>, a0: seq<nat>)
    requires a0 != [] && InOrder(m0, a0)
    requires |a0| > 1 ==> m0[a0[1]] == '-' || FindSub(cmd.subs, Str(m0, a0[1])).None?
    ensures Dispatched(cmd, base, m0, a0, if cmd.hasOperation then Run(cmd, base, |a0|) else Help(cmd), m0, a0)
  {
  }

  /** The loop over the sub-commands. */
  method FindChild(cmd: Cmd, mem: array<char>, p: nat) returns (i: nat)
    requires p <= mem.Length && NulFree(cmd)
    ensures i == match FindSub(cmd.subs, Str(mem[..], p)) { case Some(at) => at case None => |cmd.subs| }
  {
    i := 0;
    while i < |cmd.subs|
      invariant 0 <= i <= |cmd.subs|
      invariant forall j | 0 <= j < i :: cmd.subs[j].name != Str(mem[..], p)
    {
      var equal := Matches(cmd.subs[i].name, mem, p);
      if equal {
        return;
      }
      i := i + 1;
    }
  }

  /** Blanks the character in front of the word and puts the program name into its slot. */
  method StepDown(mem: array<char>, argv: array<nat>, base: nat)
    requires base + 1 < argv.Length && InOrder(mem[..], argv[base..])
    modifies mem, argv
    ensures mem[..] == old(mem[..])[old(argv[base..])[1] - 1 := ' ']
    ensures argv[base + 1..] == OneDown(old(argv[base..])) && argv[..base + 1] == old(argv[..base + 1])
  {
    assert argv[base..][1] == argv[base + 1];
    mem[argv[base + 1] - 1] := ' ';
    argv[base + 1] := argv[base];
  }

  /** The sub-command that argv[1] selects; an option selects none. */
  method ChooseSub(cmd: Cmd, mem: array<char>, argv: array<nat>, base: nat) returns (sub: Option<nat>)
    requires base < argv.Length && InOrder(mem[..], argv[base..]) && NulFree(cmd)
    ensures var a := argv[base..];
            && (sub.Some? ==> |a| > 1 && !IsOption(Str(mem[..], a[1])) && FindSub(cmd.subs, Str(mem[..], a[1])) == sub)
            && (sub.None? && |a| > 1 ==> mem[..][a[1]] == '-' || FindSub(cmd.subs, Str(mem[..], a[1])).None?)
  {
    sub := None;
    if argv.Length - base > 1 {
      assert argv[base..][1] == argv[base + 1];
      if mem[argv[base + 1]] != '-' {
        var i := FindChild(cmd, mem, argv[base + 1]);
        sub := if i < |cmd.subs| then Some(i) else None;
      }
    }
  }

  /** esp_zb_cli_process_cmd on argv[base..]. */
  method ProcessCmd(cmd: Cmd, mem: array<char>, argv: array<nat>, base: nat) returns (outcome: Outcome)
    requires base < argv.Length
    requires InOrder(mem[..], argv[base..]) && NulFree(cmd)
    modifies mem, argv
    ensures Dispatched(cmd, base, old(mem[..]), old(argv[base..]), outcome, mem[..], argv[base..])
    ensures argv[..base] == old(argv[..base])
    decreases argv.Length - base
  {
    ghost var m0, a0 := mem[..], argv[base..];
    var sub := ChooseSub(cmd, mem, argv, base);
    if sub.Some? {
      StepDown(mem, argv, base);
      OneDownTokens(m0, a0);
      outcome := ProcessCmd(cmd.subs[sub.value], mem, argv, base + 1);
      Rejoined(argv, base);
      DispatchedOneDown(cmd, sub.value, base, m0, a0, outcome, mem[..], argv[base..]);
    } else {
      DispatchedHere(cmd, base, m0, a0);
      outcome := if cmd.hasOperation then Run(cmd, base, argv.Length - base) else Help(cmd);
    }
  }

  lemma Rejoined(argv: array<nat>, base: nat)
    requires base < argv.Length
    ensures argv[base..][1..] == argv[base + 1..] && argv[base..][0] == argv[..base + 1][base]
    ensures argv[..base] == argv[..base + 1][..base]
  {
  }

  // ------------------------------------------------------------ the program name

  /** Every word starts right behind the NUL of the one before it. */
  predicate BackToBack(mem: seq<char>, argv: seq<nat>) {
    forall i | 0 < i < |argv| :: argv[i] == argv[i - 1] + |Str(mem, argv[i - 1])| + 1
  }

  function Joined(tokens: seq<string>): string
    requires tokens != []
  {
    if |tokens| == 1 then tokens[0] else Joined(tokens[..|tokens| - 1]) + " " + tokens[|tokens| - 1]
  }

  /** Turning the NUL behind a string into a blank glues the next one to it. */
  lemma {:induction false} GlueStrings(mem: seq<char>, p: nat)
    requires p + |Str(mem, p)| < |mem|
    ensures var q := p + |Str(mem, p)|; Str(mem[q := ' '], p) == Str(mem, p) + " " + Str(mem, q + 1)
    decreases |mem| - p
  {
    var q := p + |Str(mem, p)|;
    if mem[p] == '\0' {
      StrBehindWrite(mem, p, ' ', p + 1);
      assert mem[p := ' '][p] == ' ';
    } else {
      GlueStrings(mem, p + 1);
      Assoc([mem[p]], Str(mem, p + 1), " ");
      Assoc([mem[p]], Str(mem, p + 1) + " ", Str(mem, q + 1));
    }
  }

  lemma {:induction false} BlankedBehind(mem: seq<char>, argv: seq<nat>, k: nat, p: nat)
    requires InOrder(mem, argv) && k < |argv| && (forall i | 1 <= i <= k :: argv[i] <= p)
    ensures Str(Blanked(mem, argv, k), p) == Str(mem, p)
    decreases k
  {
    if k > 0 {
      BlankedBehind(mem, argv, k - 1, p);
      StrBehindWrite(Blanked(mem, argv, k - 1), argv[k] - 1, ' ', p);
    }
  }

  /** With words back to back, the program name an operation sees is its path, joined by blanks. */
  lemma {:induction false} ProgramNameIsPath(mem: seq<char>, argv: seq<nat>, k: nat)
    requires InOrder(mem, argv) && BackToBack(mem, argv) && k < |argv|
    ensures Str(Blanked(mem, argv, k), argv[0]) == Joined(Tokens(mem, argv)[..k + 1])
    ensures k + 1 < |argv| ==> argv[k + 1] == argv[0] + |Joined(Tokens(mem, argv)[..k + 1])| + 1
    decreases k
  {
    var t := Tokens(mem, argv)[..k + 1];
    if k > 0 {
      ProgramNameIsPath(mem, argv, k - 1);
      assert t[..|t| - 1] == Tokens(mem, argv)[..k];
      var m := Blanked(mem, argv, k - 1);
      assert argv[k] - 1 == argv[0] + |Str(m, argv[0])|;
      GlueStrings(m, argv[0]);
      BlankedBehind(mem, argv, k - 1, argv[k]);
    }
  }
}
