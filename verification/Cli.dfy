/** Command resolution and completion (`src/utility/cli.c`). */
module Cli {

  /** `isspace` in the C locale. */
  predicate IsSpace(c: char) {
    c == ' ' || c == '\t' || c == '\n' || c == '\U{000B}' || c == '\U{000C}' || c == '\r'
  }

  /** The length of the leading space, and of the leading word. */
  function SpaceLength(s: string): (n: nat)
    ensures n <= |s| && (forall i | 0 <= i < n :: IsSpace(s[i])) && (n < |s| ==> !IsSpace(s[n]))
  {
    if s == "" || !IsSpace(s[0]) then 0 else 1 + SpaceLength(s[1..])
  }

  function WordLength(s: string): (n: nat)
    ensures n <= |s| && (forall i | 0 <= i < n :: !IsSpace(s[i])) && (n < |s| ==> IsSpace(s[n]))
  {
    if s == "" || IsSpace(s[0]) then 0 else 1 + WordLength(s[1..])
  }

  /** `xBSP430cliNextToken`: the next word, empty if there is none, and what
      follows it. */
  function Word(s: string): string {
    var t := s[SpaceLength(s)..];
    t[..WordLength(t)]
  }

  function Rest(s: string): string {
    var t := s[SpaceLength(s)..];
    t[WordLength(t)..]
  }

  /** A command, its subcommands, and whether it can be executed. */
  datatype Command = Command(key: string, hasHandler: bool, child: seq<Command>)

  /** The commands of a set whose keys begin with `word`, in their order. */
  function Matches(cmds: seq<Command>, word: string): (m: seq<Command>)
    ensures forall c :: c in m <==> c in cmds && word <= c.key
  {
    if cmds == [] then []
    else (if word <= cmds[0].key then [cmds[0]] else []) + Matches(cmds[1..], word)
  }

  /** How `processSubcommand_` ends: in a handler, or in a diagnostic. */
  datatype Ending = ParseHandler | CommandHandler | MultiMatch | Unrecognized | Missing | Config

  /** The commands resolved on the way (the chain, and what the chain handler is
      called for), with the text that each was resolved from; the end, whether it
      came because no single command matched, and the text handed to it. */
  datatype Outcome = Outcome(path: seq<Command>, texts: seq<string>, ending: Ending, stuck: bool, args: string)

  /** `processSubcommand_`, with or without a parse handler. */
  function Process(cmds: seq<Command>, text: string, parsing: bool): Outcome
    decreases cmds
  {
    var m := Matches(cmds, Word(text));
    if Word(text) == "" || |m| != 1 then
      Outcome([], [],
              if parsing then ParseHandler else if Word(text) != "" && |m| > 1 then MultiMatch else Unrecognized,
              true, text)
    else
      var cmd, args := m[0], Rest(text);
      if cmd.child != [] && Word(args) != "" then
        var o := Process(cmd.child, args, parsing);
        o.(path := [cmd] + o.path, texts := [text] + o.texts)
      else
        Outcome([cmd], [text],
                if parsing then ParseHandler else if cmd.hasHandler then CommandHandler
                else if cmd.child != [] then Missing else Config,
                false, args)
  }

  // ----- completion -----

  /** The length of the common prefix of two strings. */
  function CommonLength(a: string, b: string): (n: nat)
    ensures n <= |a| && n <= |b| && a[..n] == b[..n]
    ensures n < |a| && n < |b| ==> a[n] != b[n]
  {
    if a == "" || b == "" || a[0] != b[0] then 0
    else
      var n := CommonLength(a[1..], b[1..]);
      assert a[..n + 1] == [a[0]] + a[1..][..n] && b[..n + 1] == [b[0]] + b[1..][..n];
      n + 1
  }

  function Min(x: nat, y: nat): nat {
    if x < y then x else y
  }

  /** `append_len` after the candidates were registered one by one with
      `vBSP430cliCompletionHelperCallback`. */
  function AppendLength(candidates: seq<string>): (n: nat)
    ensures if candidates == [] then n == 0 else n <= |candidates[0]|
  {
    if candidates == [] then 0
    else if |candidates| == 1 then |candidates[0]|
    else
      var k := |candidates| - 1;
      Min(AppendLength(candidates[..k]), CommonLength(candidates[0], candidates[k]))
  }

  function Keys(cmds: seq<Command>): (k: seq<string>)
    ensures |k| == |cmds| && forall i | 0 <= i < |k| :: k[i] == cmds[i].key
  {
    seq(|cmds|, i requires 0 <= i < |cmds| => cmds[i].key)
  }

  /** The text offered to be appended, whether a space should follow it, and the
      number of candidates. */
  datatype Completion = Completion(append: string, space: bool, candidates: nat)

  /** `doCompletion_` for the end of a resolution, without completion helpers. */
  function Complete(cmds: seq<Command>, text: string): Completion {
    var o := Process(cmds, text, true);
    if !o.stuck && o.path != [] && o.texts != [] && Rest(o.texts[|o.texts| - 1]) == "" then
      // the input ends inside the word that identified the last command
      var n, key := |Word(o.texts[|o.texts| - 1])|, o.path[|o.path| - 1].key;
      Completion(if n <= |key| then key[n..] else "", true, 1)
    else
      var here := if o.path == [] then cmds else o.path[|o.path| - 1].child;
      var keys := Keys(Matches(here, Word(o.args)));
      var n, k := AppendLength(keys), |Word(o.args)|;
      if k < n then Completion(keys[0][k..n], |keys| == 1, |keys|) else Completion("", false, |keys|)
  }
}
