/** CallbackQuickPhraseProvider and SpellQuickPhraseProvider: a chain of
    registered callbacks, and hints from the spell module. */
module Providers {
  import opened Common

  /** A registered callback: the candidates it adds and whether the
      providers after it may still run. */
  type Callback = (InputContext, string) -> Outcome

  /** The chain run in registration order, each callback on the same input
      context and text, ending right after the first callback that says stop.
      A chain that lets later providers run has collected every callback's
      candidates; one that says stop has run at least one callback. */
  function Chain(callbacks: seq<Callback>, ic: InputContext, userInput: string): (r: Outcome)
    ensures r.proceed ==> r.candidates == Added(callbacks, ic, userInput)
    ensures !r.proceed ==> callbacks != []
  {
    if callbacks == [] then Outcome([], true)
    else
      var first := callbacks[0](ic, userInput);
      if !first.proceed then first
      else
        var rest := Chain(callbacks[1..], ic, userInput);
        Outcome(first.candidates + rest.candidates, rest.proceed)
  }

  /** Every callback of `callbacks` lets the chain go on. */
  predicate AllProceed(callbacks: seq<Callback>, ic: InputContext, userInput: string)
  {
    forall i :: 0 <= i < |callbacks| ==> callbacks[i](ic, userInput).proceed
  }

  /** The candidates of callbacks run one after the other. */
  function Added(callbacks: seq<Callback>, ic: InputContext, userInput: string): seq<Candidate>
  {
    if callbacks == [] then []
    else callbacks[0](ic, userInput).candidates + Added(callbacks[1..], ic, userInput)
  }

  /** The chain lets later providers run exactly when every callback does;
      in particular the empty chain does. */
  lemma {:induction false} ChainProceeds(callbacks: seq<Callback>, ic: InputContext, userInput: string)
    ensures Chain(callbacks, ic, userInput).proceed <==> AllProceed(callbacks, ic, userInput)
  {
    if callbacks != [] {
      ChainProceeds(callbacks[1..], ic, userInput);
      if callbacks[0](ic, userInput).proceed {
        if AllProceed(callbacks[1..], ic, userInput) {
          forall i | 0 <= i < |callbacks|
            ensures callbacks[i](ic, userInput).proceed
          {
            if i > 0 {
              assert callbacks[i] == callbacks[1..][i - 1];
            }
          }
        } else {
          var j :| 0 <= j < |callbacks[1..]| && !callbacks[1..][j](ic, userInput).proceed;
          assert callbacks[j + 1] == callbacks[1..][j];
        }
      }
    }
  }

  /** Callbacks that all proceed contribute their candidates in order,
      ahead of whatever the rest of the chain adds. */
  lemma {:induction false} ChainAppend(pre: seq<Callback>, post: seq<Callback>, ic: InputContext, userInput: string)
    requires AllProceed(pre, ic, userInput)
    ensures Chain(pre + post, ic, userInput)
      == Outcome(Added(pre, ic, userInput) + Chain(post, ic, userInput).candidates, Chain(post, ic, userInput).proceed)
  {
    if pre == [] {
      assert pre + post == post;
    } else {
      assert (pre + post)[0] == pre[0];
      assert (pre + post)[1..] == pre[1..] + post;
      assert AllProceed(pre[1..], ic, userInput) by {
        forall i | 0 <= i < |pre[1..]|
          ensures pre[1..][i](ic, userInput).proceed
        {
          assert pre[1..][i] == pre[i + 1];
        }
      }
      ChainAppend(pre[1..], post, ic, userInput);
      assert pre[0](ic, userInput).proceed;
    }
  }

  /** A callback that says stop ends the chain: nothing registered after it
      runs, and the chain says stop. */
  lemma ChainStopsAtVeto(pre: seq<Callback>, veto: Callback, post: seq<Callback>, ic: InputContext, userInput: string)
    requires AllProceed(pre, ic, userInput)
    requires !veto(ic, userInput).proceed
    ensures Chain(pre + [veto] + post, ic, userInput)
      == Outcome(Added(pre, ic, userInput) + veto(ic, userInput).candidates, false)
  {
    assert pre + [veto] + post == pre + ([veto] + post);
    ChainAppend(pre, [veto] + post, ic, userInput);
    assert ([veto] + post)[0] == veto;
  }

  /** One turn of the loop: the chain from callback `i` on is callback `i`'s
      outcome when it says stop, and otherwise its candidates ahead of the
      chain from `i + 1` on. */
  lemma ChainStep(callbacks: seq<Callback>, i: nat, ic: InputContext, userInput: string)
    requires i < |callbacks|
    ensures var r := callbacks[i](ic, userInput);
      Chain(callbacks[i..], ic, userInput)
        == if !r.proceed then r
           else Outcome(r.candidates + Chain(callbacks[i + 1..], ic, userInput).candidates,
                        Chain(callbacks[i + 1..], ic, userInput).proceed)
    ensures callbacks[..i + 1] == callbacks[..i] + [callbacks[i]]
  {
    assert callbacks[i..][0] == callbacks[i];
    assert callbacks[i..][1..] == callbacks[i + 1..];
  }

  /** CallbackQuickPhraseProvider::populate. `invoked` counts the callbacks
      called: all of them when the chain proceeds, otherwise up to and
      including the first that says stop. */
  method CallbackPopulate(callbacks: seq<Callback>, ic: InputContext, userInput: string)
    returns (o: Outcome, invoked: nat)
    ensures o == Chain(callbacks, ic, userInput)
    ensures invoked <= |callbacks|
    ensures o.proceed ==> invoked == |callbacks| && AllProceed(callbacks, ic, userInput)
    ensures !o.proceed ==>
      (0 < invoked && !callbacks[invoked - 1](ic, userInput).proceed
       && AllProceed(callbacks[..invoked - 1], ic, userInput))
  {
    var added: seq<Candidate> := [];
    invoked := 0;
    while invoked < |callbacks|
      invariant invoked <= |callbacks|
      invariant AllProceed(callbacks[..invoked], ic, userInput)
      invariant Chain(callbacks, ic, userInput)
        == Outcome(added + Chain(callbacks[invoked..], ic, userInput).candidates,
                   Chain(callbacks[invoked..], ic, userInput).proceed)
    {
      var r := callbacks[invoked](ic, userInput);
      ChainStep(callbacks, invoked, ic, userInput);
      invoked := invoked + 1;
      if !r.proceed {
        o := Outcome(added + r.candidates, false);
        return;
      }
      added := added + r.candidates;
    }
    assert callbacks[invoked..] == [];
    assert callbacks[..invoked] == callbacks;
    o := Outcome(added, true);
  }

  /** The spell module's calls: which languages have a dictionary, and the
      hints for a text in a language, at most a page of them. */
  datatype SpellService = SpellService(checkDict: string -> bool, hint: (string, string, nat) -> seq<string>)

  /** The quick-phrase options the spell provider reads. */
  datatype SpellConfig = SpellConfig(enableSpell: bool, fallbackLanguage: string)

  /** The language hints are asked in, or None when the provider gives up:
      the input method's language when the spell module has it, otherwise
      the fallback, which is checked only when an input method is known. */
  function SpellLanguage(spell: SpellService, fallback: string, ic: InputContext): (r: Option<string>)
    ensures r.Some? ==> r.value == fallback || r == ic.imLanguage
    ensures ic.imLanguage.Some? && spell.checkDict(ic.imLanguage.value) ==> r == ic.imLanguage
    ensures ic.imLanguage.Some? && r.Some? ==> spell.checkDict(r.value)
    ensures ic.imLanguage.None? ==> r == Some(fallback)
    ensures r.None? <==>
      ic.imLanguage.Some? && !spell.checkDict(ic.imLanguage.value) && !spell.checkDict(fallback)
  {
    match ic.imLanguage
    case None => Some(fallback)
    case Some(language) =>
      if spell.checkDict(language) then Some(language)
      else if !spell.checkDict(fallback) then None
      else Some(fallback)
  }

  /** SpellQuickPhraseProvider::populate: each hint becomes a candidate shown
      and committed as itself; later providers always run. `spell` is None
      when the spell module is not loaded, `pageSize` is the global page size. */
  method SpellPopulate(config: SpellConfig, spell: Option<SpellService>, pageSize: nat,
                       ic: InputContext, userInput: string) returns (o: Outcome)
    ensures o.proceed
    ensures !config.enableSpell || spell.None? ==> o.candidates == []
    ensures config.enableSpell && spell.Some? ==>
      match SpellLanguage(spell.value, config.fallbackLanguage, ic)
      case None => o.candidates == []
      case Some(language) =>
        var words := spell.value.hint(language, userInput, pageSize);
        |o.candidates| == |words|
        && forall i :: 0 <= i < |words| ==> o.candidates[i] == Candidate(words[i], words[i], Commit)
  {
    if !config.enableSpell || spell.None? {
      return Outcome([], true);
    }
    var lang := SpellLanguage(spell.value, config.fallbackLanguage, ic);
    if lang.None? {
      return Outcome([], true);
    }
    var words := spell.value.hint(lang.value, userInput, pageSize);
    var added: seq<Candidate> := [];
    for i := 0 to |words|
      invariant |added| == i
      invariant forall k :: 0 <= k < i ==> added[k] == Candidate(words[k], words[k], Commit)
    {
      added := added + [Candidate(words[i], words[i], Commit)];
    }
    o := Outcome(added, true);
  }
}
