/** What command resolution and completion promise. */
module CliProofs {
  import opened Cli

  // ----- resolution -----

  /** The words of a text. */
  function Words(text: string): seq<string>
    decreases |text|
  {
    if Word(text) == "" then []
    else
      assert |Rest(text)| < |text|;
      [Word(text)] + Words(Rest(text))
  }

  /** Resolution of a list of words: each must be the beginning of exactly one key,
      and is looked up among the children of the command before it.  Returns the
      commands resolved. */
  function Resolve(cmds: seq<Command>, words: seq<string>): seq<Command>
    decreases cmds
  {
    if words == [] || |Matches(cmds, words[0])| != 1 then []
    else
      var cmd := Matches(cmds, words[0])[0];
      [cmd] + if cmd.child != [] && |words| > 1 then Resolve(cmd.child, words[1..]) else []
  }

  /** Where resolution stopped: the commands it would look in next. */
  function Scope(cmds: seq<Command>, path: seq<Command>): seq<Command> {
    if path == [] then cmds else path[|path| - 1].child
  }

  ghost predicate SuffixOf(s: string, t: string) {
    |s| <= |t| && s == t[|t| - |s|..]
  }

  /** Streaming resolution over the text is resolution of its words; what is left
      to the handler is an untouched suffix of the input holding just the words
      not resolved. */
  lemma {:induction false} ProcessResolvesWords(cmds: seq<Command>, text: string, parsing: bool)
    ensures var o := Process(cmds, text, parsing);
            && o.path == Resolve(cmds, Words(text))
            && |o.texts| == |o.path| <= |Words(text)|
            && SuffixOf(o.args, text)
            && Words(o.args) == Words(text)[|o.path|..]
    decreases cmds
  {
    hide Words, Word, Rest, SuffixOf, Matches;
    WordsStep(text);
    SuffixOfSelf(text);
    var m := Matches(cmds, Word(text));
    if Word(text) != "" && |m| == 1 {
      var cmd, args := m[0], Rest(text);
      WordsStep(args);
      if cmd.child != [] && Word(args) != "" {
        var o := Process(cmd.child, args, parsing);
        ProcessResolvesWords(cmd.child, args, parsing);
        SuffixOfSuffix(o.args, args, text);
        assert Process(cmds, text, parsing) == o.(path := [cmd] + o.path, texts := [text] + o.texts);
      }
    }
  }

  lemma {:induction false} WordsStep(text: string)
    ensures SuffixOf(Rest(text), text)
    ensures Word(text) == "" <==> Words(text) == []
    ensures Word(text) != "" ==> Words(text) == [Word(text)] + Words(Rest(text))
  {
  }

  lemma {:induction false} SuffixOfSelf(a: string)
    ensures SuffixOf(a, a)
  {
  }

  lemma {:induction false} SuffixOfSuffix(a: string, b: string, c: string)
    requires SuffixOf(a, b) && SuffixOf(b, c)
    ensures SuffixOf(a, c)
  {
  }

  /** The space of the C locale: tab, line feed, vertical tab, form feed, carriage
      return, with the codes 9 to 13, and the blank. */
  lemma {:induction false} SpaceCodes(c: char)
    ensures IsSpace(c) <==> 9 <= c as int <= 13 || c as int == 32
  {
    assert '\t' as int == 9 && '\r' as int == 13 && ' ' as int == 32;
    assert c == (c as int) as char;
  }

  /** The tokenizer: a text is space, its first word and what follows; the word has
      no space in it, what follows it begins with one, and only with a word does
      anything follow. */
  lemma {:induction false} TextSplits(s: string)
    ensures var n := SpaceLength(s);
            && s == s[..n] + Word(s) + Rest(s)
            && (forall c | c in s[..n] :: IsSpace(c))
            && (forall c | c in Word(s) :: !IsSpace(c))
            && (Rest(s) != "" ==> Word(s) != "" && IsSpace(Rest(s)[0]))
  {
    hide SpaceLength, WordLength;
    var n := SpaceLength(s);
    var t := s[n..];
    var a, b := t[..WordLength(t)], t[WordLength(t)..];
    assert s == s[..n] + t && t == a + b;
    assert s[..n] + (a + b) == s[..n] + a + b;
  }

  /** The texts recorded on the way are those that begin with the words resolved. */
  lemma {:induction false} TextsBeginWithWords(cmds: seq<Command>, text: string, parsing: bool)
    ensures var o := Process(cmds, text, parsing);
            && |o.texts| == |o.path| <= |Words(text)|
            && forall i | 0 <= i < |o.texts| :: Word(o.texts[i]) == Words(text)[i]
    decreases cmds
  {
    hide Words, Word, Rest;
    WordsStep(text);
    var m := Matches(cmds, Word(text));
    if Word(text) != "" && |m| == 1 {
      var cmd, args := m[0], Rest(text);
      WordsStep(args);
      if cmd.child != [] && Word(args) != "" {
        var o := Process(cmd.child, args, parsing);
        TextsBeginWithWords(cmd.child, args, parsing);
        assert Process(cmds, text, parsing) == o.(path := [cmd] + o.path, texts := [text] + o.texts);
      }
    }
  }

  /** Resolution gets stuck unless a command was resolved and no word is left, or
      none to look it up among. */
  lemma {:induction false} StuckIff(cmds: seq<Command>, text: string, parsing: bool)
    ensures var o := Process(cmds, text, parsing);
            o.stuck <==> o.path == [] || (Words(o.args) != [] && Scope(cmds, o.path) != [])
    decreases cmds
  {
    hide Words, Word, Rest;
    WordsStep(text);
    var m := Matches(cmds, Word(text));
    if Word(text) != "" && |m| == 1 {
      var cmd, args := m[0], Rest(text);
      WordsStep(args);
      if cmd.child != [] && Word(args) != "" {
        var o := Process(cmd.child, args, parsing);
        StuckIff(cmd.child, args, parsing);
        StoppedAtWord(cmd.child, args, parsing);
        assert Process(cmds, text, parsing) == o.(path := [cmd] + o.path, texts := [text] + o.texts);
        assert Scope(cmds, [cmd] + o.path) == Scope(cmd.child, o.path);
      }
    }
  }

  /** What an ending says about the commands `here` that were looked in last, the
      command `last` that was resolved last, and the words `left`. */
  ghost predicate Explains(ending: Ending, here: seq<Command>, path: seq<Command>, left: seq<string>) {
    if path == [] && left == [] then ending == Unrecognized
    else if path == [] || (left != [] && here != []) then
      && |Matches(here, left[0])| != 1
      && ending == if |Matches(here, left[0])| > 1 then MultiMatch else Unrecognized
    else
      ending == if path[|path| - 1].hasHandler then CommandHandler else if here != [] then Missing else Config
  }

  /** The ending names what happened: the next word fits no command or several, or
      the last command resolved is executed, lacks a subcommand, or cannot be
      executed. */
  lemma {:induction false} EndingExplained(cmds: seq<Command>, text: string)
    ensures var o := Process(cmds, text, false);
            Explains(o.ending, Scope(cmds, o.path), o.path, Words(o.args))
    decreases cmds
  {
    hide Words, Word, Rest, Matches;
    WordsStep(text);
    var m := Matches(cmds, Word(text));
    if Word(text) != "" && |m| == 1 {
      var cmd, args := m[0], Rest(text);
      WordsStep(args);
      if cmd.child != [] && Word(args) != "" {
        var o := Process(cmd.child, args, false);
        EndingExplained(cmd.child, args);
        assert Process(cmds, text, false) == o.(path := [cmd] + o.path, texts := [text] + o.texts);
        assert Scope(cmds, [cmd] + o.path) == Scope(cmd.child, o.path);
        StoppedAtWord(cmd.child, args, false);
      }
    }
  }

  /** Given a word to start with, resolution that gets nowhere stops at that word. */
  lemma {:induction false} StoppedAtWord(cmds: seq<Command>, text: string, parsing: bool)
    requires Word(text) != ""
    ensures var o := Process(cmds, text, parsing); o.path == [] ==> Words(o.args) != []
  {
  }

  // ----- completion -----

  ghost predicate CommonPrefix(p: string, candidates: seq<string>) {
    forall c | c in candidates :: p <= c
  }

  /** `p` is a prefix of every candidate and no longer string is. */
  ghost predicate LongestCommonPrefix(p: string, candidates: seq<string>) {
    && CommonPrefix(p, candidates)
    && (forall q: string | CommonPrefix(q, candidates) :: |q| <= |p|)
  }

  lemma {:induction false} PrefixOfBoth(a: string, b: string, q: string)
    requires q <= a && q <= b
    ensures |q| <= CommonLength(a, b)
  {
  }

  /** Registering candidates one by one computes their longest common prefix. */
  lemma {:induction false} AppendLengthIsCommonPrefix(candidates: seq<string>)
    requires candidates != []
    ensures LongestCommonPrefix(candidates[0][..AppendLength(candidates)], candidates)
  {
    var a, k := candidates[0], |candidates| - 1;
    if k == 0 {
      assert a[..|a|] == a && a in candidates;
    } else {
      var front, b := candidates[..k], candidates[k];
      AppendLengthIsCommonPrefix(front);
      var m, n := AppendLength(front), CommonLength(a, b);
      var p := a[..Min(m, n)];
      forall c | c in candidates ensures p <= c {
        CandidatePrefix(candidates, c, m, n);
      }
      forall q: string | CommonPrefix(q, candidates) ensures |q| <= |p| {
        assert a in candidates && b in candidates;
        PrefixOfBoth(a, b, q);
        assert CommonPrefix(q, front) by { assert forall c | c in front :: c in candidates; }
      }
    }
  }

  lemma {:induction false} PrefixTransitive(p: string, q: string, c: string)
    requires p <= q
    ensures q <= c ==> p <= c
  {
  }

  lemma {:induction false} CandidatePrefix(candidates: seq<string>, c: string, m: nat, n: nat)
    requires |candidates| > 1 && c in candidates
    requires m <= |candidates[0]| && n <= |candidates[0]|
    requires CommonPrefix(candidates[0][..m], candidates[..|candidates| - 1])
    requires candidates[0][..n] <= candidates[|candidates| - 1]
    ensures candidates[0][..Min(m, n)] <= c
  {
    var a, p := candidates[0], candidates[0][..Min(m, n)];
    PrefixTransitive(p, a[..m], c);
    PrefixTransitive(p, a[..n], c);
    var i :| 0 <= i < |candidates| && candidates[i] == c;
    if i < |candidates| - 1 {
      assert candidates[..|candidates| - 1][i] == c;
      assert c in candidates[..|candidates| - 1];
      assert a[..m] <= c;
    } else {
      assert a[..n] <= c;
    }
  }

  /** The common prefix does not depend on the order of the candidates, nor on
      which of them comes first. */
  lemma {:induction false} CompletionIgnoresOrder(xs: seq<string>, ys: seq<string>)
    requires xs != [] && ys != [] && multiset(xs) == multiset(ys)
    ensures xs[0][..AppendLength(xs)] == ys[0][..AppendLength(ys)]
  {
    AppendLengthIsCommonPrefix(xs);
    AppendLengthIsCommonPrefix(ys);
    forall c ensures c in xs <==> c in ys {
      assert c in xs <==> c in multiset(xs);
      assert c in ys <==> c in multiset(ys);
    }
    CommonPrefixUnique(xs[0][..AppendLength(xs)], ys[0][..AppendLength(ys)], xs, ys);
  }

  lemma {:induction false} CommonPrefixUnique(p: string, q: string, xs: seq<string>, ys: seq<string>)
    requires xs != [] && LongestCommonPrefix(p, xs) && LongestCommonPrefix(q, ys)
    requires forall c :: c in xs <==> c in ys
    ensures p == q
  {
    var c := xs[0];
    assert c in xs && c in ys;
    assert CommonPrefix(p, ys) && CommonPrefix(q, xs);
    assert p <= c && q <= c && |p| == |q|;
  }

  /** Resolution as completion sees it: the last command was resolved from a text
      beginning with its word, and the word that stopped it fits no single key. */
  lemma {:induction false} ResolutionShape(cmds: seq<Command>, text: string)
    ensures var o := Process(cmds, text, true);
            && |o.texts| == |o.path|
            && (o.path == [] ==> o.stuck)
            && (o.path != [] ==>
                  var t, cmd := o.texts[|o.texts| - 1], o.path[|o.path| - 1];
                  Word(t) != "" && Word(t) <= cmd.key && SuffixOf(t, text) && (!o.stuck ==> o.args == Rest(t)))
    decreases cmds
  {
    hide Word, Rest;
    WordsStep(text);
    var m := Matches(cmds, Word(text));
    if Word(text) != "" && |m| == 1 {
      var cmd, args := m[0], Rest(text);
      assert cmd in m;
      if cmd.child != [] && Word(args) != "" {
        var o := Process(cmd.child, args, true);
        ResolutionShape(cmd.child, args);
        assert Process(cmds, text, true) == o.(path := [cmd] + o.path, texts := [text] + o.texts);
        if o.path != [] {
          SuffixOfSuffix(o.texts[|o.texts| - 1], args, text);
        }
      }
    }
  }

  /** Completion, in terms of how resolution ended. */
  lemma {:induction false} CompletionByOutcome(cmds: seq<Command>, text: string)
    ensures var o, c := Process(cmds, text, true), Complete(cmds, text);
            if !o.stuck && Rest(o.texts[|o.texts| - 1]) == "" then
              Word(o.texts[|o.texts| - 1]) + c.append == o.path[|o.path| - 1].key && c.space && c.candidates == 1
            else
              var keys := Keys(Matches(Scope(cmds, o.path), Word(o.args)));
              && c.candidates == |keys|
              && (keys == [] ==> c == Completion("", false, 0))
              && (keys != [] ==> LongestCommonPrefix(Word(o.args) + c.append, keys))
              && (c.space <==> c.append != "" && |keys| == 1)
              && (c.space ==> Word(o.args) + c.append == keys[0])
  {
    hide Word, Rest, Process, Matches, AppendLength, LongestCommonPrefix;
    ResolutionShape(cmds, text);
    var o := Process(cmds, text, true);
    if o.stuck || Rest(o.texts[|o.texts| - 1]) != "" {
      var word, m := Word(o.args), Matches(Scope(cmds, o.path), Word(o.args));
      var keys := Keys(m);
      if keys != [] {
        forall k | k in keys ensures word <= k {
          var i :| 0 <= i < |keys| && keys[i] == k;
          assert m[i] in m;
        }
        assert CommonPrefix(word, keys);
        CompletesWord(word, keys);
      }
    } else {
      var t, cmd := o.texts[|o.texts| - 1], o.path[|o.path| - 1];
      assert Word(t) + cmd.key[|Word(t)|..] == cmd.key;
    }
  }

  /** If the text ends inside a word that identifies a command, all of whose words
      are resolved, that command's key is completed and a space offered.  Otherwise
      the word not resolved, empty if there is none, and what is offered together are
      the longest common prefix of all keys that it may stand for there, and a space
      is offered exactly with the whole of the only one. */
  lemma {:induction false} CompletionIsCommonPrefix(cmds: seq<Command>, text: string)
    ensures var words, c := Words(text), Complete(cmds, text);
            var path := Resolve(cmds, words);
            if EndsInCommand(cmds, text) then
              words[|words| - 1] + c.append == path[|path| - 1].key && c.space && c.candidates == 1
            else
              var word := if |path| < |words| then words[|path|] else "";
              var keys := Keys(Matches(Scope(cmds, path), word));
              && c.candidates == |keys|
              && (keys == [] ==> c == Completion("", false, 0))
              && (keys != [] ==> LongestCommonPrefix(word + c.append, keys))
              && (c.space <==> c.append != "" && |keys| == 1)
              && (c.space ==> word + c.append == keys[0])
  {
    hide *;
    var o, words := Process(cmds, text, true), Words(text);
    CompletionByOutcome(cmds, text);
    ProcessResolvesWords(cmds, text, true);
    TextsBeginWithWords(cmds, text, true);
    ResolutionShape(cmds, text);
    EndsInCommandIff(cmds, text);
    FirstWord(o.args);
  }

  /** All words are resolved, and the text does not end with a space. */
  ghost predicate EndsInCommand(cmds: seq<Command>, text: string)
    ensures EndsInCommand(cmds, text) ==>
              Resolve(cmds, Words(text)) != [] && |Resolve(cmds, Words(text))| == |Words(text)|
  {
    && text != "" && !IsSpace(text[|text| - 1])
    && Resolve(cmds, Words(text)) != [] && |Resolve(cmds, Words(text))| == |Words(text)|
  }

  lemma {:induction false} FirstWord(text: string)
    ensures Word(text) == if Words(text) == [] then "" else Words(text)[0]
  {
    hide Word, Rest;
  }

  lemma {:induction false} EndsInCommandIff(cmds: seq<Command>, text: string)
    ensures var o := Process(cmds, text, true);
            && |o.texts| == |o.path|
            && (EndsInCommand(cmds, text) <==> !o.stuck && o.texts != [] && Rest(o.texts[|o.texts| - 1]) == "")
  {
    hide Words, Word, Rest, Process, Scope, Resolve;
    var o := Process(cmds, text, true);
    ProcessResolvesWords(cmds, text, true);
    ResolutionShape(cmds, text);
    StuckIff(cmds, text, true);
    EmptyWords();
    if o.path != [] && Words(o.args) == [] {
      assert |o.path| == |Words(text)|;
      LastCharacter(text, o.texts[|o.texts| - 1], o.args);
    }
  }

  lemma {:induction false} LastCharacter(text: string, t: string, args: string)
    requires SuffixOf(t, text) && SuffixOf(args, text) && Word(t) != "" && args == Rest(t) && Words(args) == []
    ensures text != "" && (args == "" <==> !IsSpace(text[|text| - 1]))
  {
    hide Word, Rest, Words, IsSpace;
    if args == "" {
      EndsWithWord(t);
      assert t[|t| - 1] == text[|text| - 1];
    } else {
      EndsWithSpace(args);
      assert args[|args| - 1] == text[|text| - 1];
    }
  }

  lemma {:induction false} EmptyWords()
    ensures Words("") == []
  {
  }

  lemma {:induction false} EndsWithSpace(s: string)
    requires Words(s) == [] && s != ""
    ensures IsSpace(s[|s| - 1])
  {
    TextSplits(s);
    assert s == s[..SpaceLength(s)];
  }

  lemma {:induction false} EndsWithWord(t: string)
    requires Word(t) != "" && Rest(t) == ""
    ensures t != "" && !IsSpace(t[|t| - 1])
  {
    TextSplits(t);
    hide Word, Rest;
    assert t[|t| - 1] == Word(t)[|Word(t)| - 1];
  }

  lemma {:induction false} CompletesWord(word: string, keys: seq<string>)
    requires keys != [] && CommonPrefix(word, keys)
    ensures |word| <= AppendLength(keys) <= |keys[0]|
    ensures LongestCommonPrefix(word + keys[0][|word|..AppendLength(keys)], keys)
    ensures |keys| == 1 ==> word + keys[0][|word|..AppendLength(keys)] == keys[0]
  {
    AppendLengthIsCommonPrefix(keys);
    assert keys[0] in keys;
    assert word + keys[0][|word|..AppendLength(keys)] == keys[0][..AppendLength(keys)];
  }
}
