/** The loops of `src/utility/cli.c`: the tokenizer, the matcher and the
    registration of completion candidates. */
module CliDriver {
  import opened Lists
  import opened Cli

  lemma {:induction false} SpaceLengthIs(s: string, n: nat)
    requires n <= |s| && (forall i | 0 <= i < n :: IsSpace(s[i])) && (n < |s| ==> !IsSpace(s[n]))
    ensures SpaceLength(s) == n
  {
  }

  lemma {:induction false} WordLengthIs(s: string, n: nat)
    requires n <= |s| && (forall i | 0 <= i < n :: !IsSpace(s[i])) && (n < |s| ==> IsSpace(s[n]))
    ensures WordLength(s) == n
  {
  }

  /** `xBSP430cliNextToken`: the token is `command[start..end]`. */
  method NextToken(command: string) returns (start: nat, end: nat)
    ensures start <= end <= |command|
    ensures command[start..end] == Word(command) && command[end..] == Rest(command)
  {
    start := 0;
    while start < |command| && IsSpace(command[start])
      invariant start <= |command| && forall i | 0 <= i < start :: IsSpace(command[i])
    {
      start := start + 1;
    }
    end := start;
    while end < |command| && !IsSpace(command[end])
      invariant start <= end <= |command| && forall i | start <= i < end :: !IsSpace(command[i])
    {
      end := end + 1;
    }
    SpaceLengthIs(command, start);
    var t := command[start..];
    assert forall i | 0 <= i < |t| :: t[i] == command[start + i];
    WordLengthIs(t, end - start);
    assert t[..end - start] == command[start..end] && t[end - start..] == command[end..];
  }

  /** `strncmp` of the token with a key, for the length of the token. */
  method BeginsWith(key: string, word: string) returns (b: bool)
    ensures b <==> word <= key
  {
    var i := 0;
    while i < |word|
      invariant i <= |word| && i <= |key| && word[..i] == key[..i]
    {
      if i == |key| || key[i] != word[i] {
        return false;
      }
      i := i + 1;
    }
    assert word[..|word|] == word;
    return true;
  }

  /** `iBSP430cliMatchCommand`: the number of matches, negated for an empty token,
      the match if there is just one, and the text after the token. */
  method MatchCommand(cmds: seq<Command>, text: string) returns (nmatches: int, found: seq<Command>, args: string)
    ensures args == Rest(text)
    ensures nmatches == if Word(text) == "" then -|cmds| else |Matches(cmds, Word(text))|
    ensures nmatches == 1 ==> found == Matches(cmds, Word(text))
  {
    hide Matches;
    var start, end := NextToken(text);
    var word := text[start..end];
    args := text[end..];
    nmatches, found := 0, [];
    MatchesNone(word);
    for i := 0 to |cmds|
      invariant found == Matches(cmds[..i], word) && nmatches == |found|
      invariant word == "" ==> nmatches == i
    {
      MatchesOne(cmds[..i], cmds[i], word);
      assert cmds[..i + 1] == cmds[..i] + [cmds[i]];
      var b := BeginsWith(cmds[i].key, word);
      if b {
        nmatches, found := nmatches + 1, found + [cmds[i]];
      }
    }
    assert cmds[..|cmds|] == cmds;
    if word == "" {
      nmatches := -nmatches;
    }
  }

  lemma {:induction false} MatchesNone(word: string)
    ensures Matches([], word) == []
  {
  }

  /** One more command joins the matches, behind the others, iff it matches. */
  lemma {:induction false} MatchesOne(cmds: seq<Command>, last: Command, word: string)
    ensures Matches(cmds + [last], word) == Matches(cmds, word) + if word <= last.key then [last] else []
    decreases |cmds|
  {
    hide Matches;
    var all := cmds + [last];
    MatchesFirst(all, word);
    if cmds == [] {
      assert all[1..] == [];
      MatchesNone(word);
    } else {
      assert all[1..] == cmds[1..] + [last];
      MatchesFirst(cmds, word);
      MatchesOne(cmds[1..], last, word);
      var first, more, end := if word <= cmds[0].key then [cmds[0]] else [], Matches(cmds[1..], word),
                              if word <= last.key then [last] else [];
      assert first + more + end == first + (more + end);
    }
  }

  lemma {:induction false} MatchesFirst(cmds: seq<Command>, word: string)
    requires cmds != []
    ensures Matches(cmds, word) == (if word <= cmds[0].key then [cmds[0]] else []) + Matches(cmds[1..], word)
  {
  }

  /** `sBSP430cliCompletionData` with room for one returned candidate or more. */
  class CompletionData {
    var appendLen: nat
    var ncandidates: nat
    var first: string
    ghost var registered: seq<string>

    constructor ()
      ensures Valid() && registered == []
    {
      appendLen, ncandidates, first, registered := 0, 0, "", [];
    }

    ghost predicate Valid()
      reads this
    {
      && ncandidates == |registered|
      && appendLen == AppendLength(registered)
      && (registered != [] ==> first == registered[0])
    }

    /** `vBSP430cliCompletionHelperCallback`. */
    method Register(candidate: string)
      requires Valid()
      modifies this
      ensures Valid() && registered == old(registered) + [candidate]
    {
      ghost var before := registered;
      assert (before + [candidate])[..|before|] == before;
      if ncandidates == 0 {
        appendLen, first := |candidate|, candidate;
      } else {
        var n := 0;
        while n < appendLen && n < |candidate| && first[n] == candidate[n]
          invariant n <= appendLen && n <= |candidate| && first[..n] == candidate[..n]
        {
          n := n + 1;
        }
        CommonUpTo(first, candidate, n, appendLen);
        appendLen := n;
      }
      ncandidates := ncandidates + 1;
      registered := before + [candidate];
    }
  }

  lemma {:induction false} CommonUpTo(a: string, b: string, n: nat, limit: nat)
    requires n <= limit <= |a| && n <= |b| && a[..n] == b[..n]
    requires n == limit || n == |b| || a[n] != b[n]
    ensures n == Min(limit, CommonLength(a, b))
  {
  }

  // ----- the command chain -----

  /** `sBSP430cliCommandLink`. */
  class CommandLink {
    const cmd: Command
    var link: CommandLink?

    constructor (cmd: Command, link: CommandLink?)
      ensures this.cmd == cmd && this.link == link
    {
      this.cmd, this.link := cmd, link;
    }
  }

  /** The links from `head` on are those of `links`, which are all different. */
  ghost predicate Chained(head: CommandLink?, links: seq<CommandLink>)
    reads links
  {
    && head == NthLink(links, 0)
    && (forall i {:trigger links[i].link} | 0 <= i < |links| :: links[i].link == NthLink(links, i + 1))
    && Distinct(links)
  }

  ghost function NthLink(links: seq<CommandLink>, i: nat): CommandLink? {
    if i < |links| then links[i] else null
  }

  ghost function Backward(links: seq<CommandLink>): (r: seq<CommandLink>)
    ensures |r| == |links| && forall i | 0 <= i < |links| :: r[i] == links[|links| - 1 - i]
  {
    seq(|links|, i requires 0 <= i < |links| => links[|links| - 1 - i])
  }

  lemma {:induction false} BackwardTwice(links: seq<CommandLink>)
    ensures Backward(Backward(links)) == links
  {
  }

  /** `xBSP430cliReverseChain`: the same links in the other order. */
  method ReverseChain(chain0: CommandLink?, ghost links: seq<CommandLink>) returns (last: CommandLink?)
    requires Chained(chain0, links)
    modifies links
    ensures Chained(last, Backward(links))
  {
    hide Distinct;
    var chain := chain0;
    last := null;
    ghost var k := 0;
    while chain != null
      invariant k <= |links| && chain == NthLink(links, k)
      invariant last == LinkBefore(links, k)
      invariant forall i {:trigger links[i].link} | 0 <= i < |links| ::
                  links[i].link == if i < k then LinkBefore(links, i) else NthLink(links, i + 1)
      decreases |links| - k
    {
      OthersDiffer(links, k);
      var next := chain.link;
      chain.link := last;
      last, chain, k := chain, next, k + 1;
    }
    BackwardDistinct(links);
    ghost var r := Backward(links);
    forall i | 0 <= i < |r| ensures r[i].link == NthLink(r, i + 1) {
      var j := |links| - 1 - i;
      assert r[i] == links[j] && links[j].link == LinkBefore(links, j);
    }
  }

  ghost function LinkBefore(links: seq<CommandLink>, i: nat): CommandLink? {
    if 0 < i <= |links| then links[i - 1] else null
  }

  lemma {:induction false} OthersDiffer(links: seq<CommandLink>, k: nat)
    requires k < |links| && Distinct(links)
    ensures forall i {:trigger links[i].link} | 0 <= i < |links| && i != k :: links[i] != links[k]
  {
  }

  lemma {:induction false} BackwardDistinct(links: seq<CommandLink>)
    requires Distinct(links)
    ensures Distinct(Backward(links))
  {
  }

  /** Reversing there and back, as displaying a chain does, leaves it as it was. */
  method ReverseAndRestore(chain: CommandLink?, ghost links: seq<CommandLink>) returns (restored: CommandLink?)
    requires Chained(chain, links)
    modifies links
    ensures Chained(restored, links) && restored == chain
  {
    var rchain := ReverseChain(chain, links);
    restored := ReverseChain(rchain, Backward(links));
    BackwardTwice(links);
  }
}
