/** BuiltInQuickPhraseProvider: the dictionary-backed provider, its prefix
    lookup and the reload that rebuilds its dictionary from files. */
module BuiltIn {
  import opened Common
  import opened LexOrder
  import opened PrefixDict
  import opened LineParser

  /** The candidate for an entry found under `userInput`: the phrase as the
      label, and the phrase, a space and the untyped rest of the key as the
      commit text. */
  function PrefixCandidate(e: Entry, userInput: string): Candidate
    requires StartsWith(e.key, userInput)
  {
    Candidate(e.phrase, e.phrase + " " + e.key[|userInput|..], Commit)
  }

  /** Reference meaning of a lookup: one candidate per matching entry, in
      dictionary order. */
  function Lookup(s: seq<Entry>, userInput: string): seq<Candidate>
  {
    var ms := Matches(s, userInput);
    seq(|ms|, i requires 0 <= i < |ms| => PrefixCandidate(ms[i], userInput))
  }

  /** A lookup is sound and complete: candidate i belongs to the i-th entry
      whose key starts with the input, and every such entry has one. */
  lemma LookupShape(s: seq<Entry>, userInput: string, e: Entry)
    ensures |Lookup(s, userInput)| == |Matches(s, userInput)|
    ensures forall i :: 0 <= i < |Matches(s, userInput)| ==>
      var m := Matches(s, userInput)[i];
      && StartsWith(m.key, userInput)
      && Lookup(s, userInput)[i] == Candidate(m.phrase, m.phrase + " " + m.key[|userInput|..], Commit)
    ensures multiset(Matches(s, userInput))[e] == if StartsWith(e.key, userInput) then multiset(s)[e] else 0
  {
    MatchesCount(s, userInput, e);
  }

  /** An empty input lists the whole dictionary. */
  lemma LookupEmptyInput(s: seq<Entry>)
    ensures |Lookup(s, "")| == |s|
    ensures forall i :: 0 <= i < |s| ==> Lookup(s, "")[i] == Candidate(s[i].phrase, s[i].phrase + " " + s[i].key, Commit)
  {
    EmptyPrefixMatchesAll(s);
  }

  /** A quick-phrase file: its name (with the .mb suffix) and its lines. */
  datatype Fragment = Fragment(name: string, lines: seq<string>)

  /** The line parser `load` applies, for the given text helpers. */
  function LineParserOf(codec: TextCodec): string -> Option<Entry>
  {
    (line: string) => ParseLine(line, codec)
  }

  /** The entries `load` emplaces for these lines, in line order, when each
      line is read by `parse`. */
  function LoadedEntries(lines: seq<string>, parse: string -> Option<Entry>): seq<Entry>
  {
    if lines == [] then []
    else
      LoadedEntries(lines[..|lines| - 1], parse)
        + match parse(lines[|lines| - 1]) case Some(e) => [e] case None => []
  }

  /** A fragment is skipped when a file named after it plus ".disable" exists. */
  predicate Disabled(f: Fragment, disabled: set<string>)
  {
    f.name + ".disable" in disabled
  }

  /** The entries the enabled fragments contribute, in fragment order. */
  function FragmentEntries(fs: seq<Fragment>, disabled: set<string>, parse: string -> Option<Entry>): seq<Entry>
  {
    Blocks(fs, (f: Fragment) => FragmentBlock(f, disabled, parse))
  }

  /** The blocks `block` gives for each of `xs`, one after the other. */
  function Blocks<X, Y>(xs: seq<X>, block: X -> seq<Y>): seq<Y>
  {
    if xs == [] then [] else Blocks(xs[..|xs| - 1], block) + block(xs[|xs| - 1])
  }

  lemma {:induction false} BlocksAppend<X, Y>(a: seq<X>, b: seq<X>, block: X -> seq<Y>)
    ensures Blocks(a + b, block) == Blocks(a, block) + Blocks(b, block)
    decreases |b|
  {
    if b == [] {
      assert a + b == a;
    } else {
      BlocksAppend(a, b[..|b| - 1], block);
      assert (a + b)[..|a + b| - 1] == a + b[..|b| - 1];
      assert (a + b)[|a + b| - 1] == b[|b| - 1];
    }
  }

  /** What one fragment contributes: nothing when it is disabled, its
      loaded entries otherwise. */
  function FragmentBlock(f: Fragment, disabled: set<string>, parse: string -> Option<Entry>): seq<Entry>
  {
    if Disabled(f, disabled) then [] else LoadedEntries(f.lines, parse)
  }

  /** Everything reloadConfig emplaces, in order: the base file's entries,
      then each enabled fragment's. */
  function ReloadEntries(base: Option<seq<string>>, fs: seq<Fragment>, disabled: set<string>, parse: string -> Option<Entry>): seq<Entry>
  {
    (match base case Some(lines) => LoadedEntries(lines, parse) case None => [])
      + FragmentEntries(fs, disabled, parse)
  }

  lemma LoadedEntriesSnoc(lines: seq<string>, i: nat, parse: string -> Option<Entry>)
    requires i < |lines|
    ensures LoadedEntries(lines[..i + 1], parse)
      == LoadedEntries(lines[..i], parse) + match parse(lines[i]) case Some(e) => [e] case None => []
  {
    assert lines[..i + 1][..i] == lines[..i];
  }

  lemma InsertAllSnoc(s: seq<Entry>, es: seq<Entry>, e: Entry)
    ensures InsertAll(s, es + [e]) == Inserted(InsertAll(s, es), e)
  {
    assert (es + [e])[..|es|] == es;
  }

  lemma ReloadStep(baseEntries: seq<Entry>, fs: seq<Fragment>, i: nat, disabled: set<string>, parse: string -> Option<Entry>)
    requires i < |fs|
    ensures Disabled(fs[i], disabled) ==>
      baseEntries + FragmentEntries(fs[..i + 1], disabled, parse) == baseEntries + FragmentEntries(fs[..i], disabled, parse)
    ensures !Disabled(fs[i], disabled) ==>
      baseEntries + FragmentEntries(fs[..i + 1], disabled, parse)
        == (baseEntries + FragmentEntries(fs[..i], disabled, parse)) + LoadedEntries(fs[i].lines, parse)
  {
    assert fs[..i + 1][..i] == fs[..i];
    var prior := FragmentEntries(fs[..i], disabled, parse);
    if Disabled(fs[i], disabled) {
      assert FragmentEntries(fs[..i + 1], disabled, parse) == prior + [];
      assert prior + [] == prior;
    }
  }

  /** Emplacing two batches one after the other is emplacing their concatenation. */
  lemma {:induction false} InsertAllAppend(s: seq<Entry>, a: seq<Entry>, b: seq<Entry>)
    ensures InsertAll(InsertAll(s, a), b) == InsertAll(s, a + b)
    decreases |b|
  {
    if b == [] {
      assert a + b == a;
    } else {
      InsertAllAppend(s, a, b[..|b| - 1]);
      assert (a + b)[..|a + b| - 1] == a + b[..|b| - 1];
      assert (a + b)[|a + b| - 1] == b[|b| - 1];
    }
  }

  /** Fragments read one list after another contribute the two lists' entries in turn. */
  lemma FragmentEntriesAppend(a: seq<Fragment>, b: seq<Fragment>, disabled: set<string>, parse: string -> Option<Entry>)
    ensures FragmentEntries(a + b, disabled, parse) == FragmentEntries(a, disabled, parse) + FragmentEntries(b, disabled, parse)
  {
    BlocksAppend(a, b, (f: Fragment) => FragmentBlock(f, disabled, parse));
  }

  /** Each fragment contributes one block, in fragment order: nothing when
      it is disabled, every entry it holds otherwise. */
  lemma FragmentContribution(fs: seq<Fragment>, i: nat, disabled: set<string>, parse: string -> Option<Entry>)
    requires i < |fs|
    ensures Disabled(fs[i], disabled) ==>
      FragmentEntries(fs, disabled, parse)
        == FragmentEntries(fs[..i], disabled, parse) + FragmentEntries(fs[i + 1..], disabled, parse)
    ensures !Disabled(fs[i], disabled) ==>
      FragmentEntries(fs, disabled, parse)
        == FragmentEntries(fs[..i], disabled, parse) + LoadedEntries(fs[i].lines, parse) + FragmentEntries(fs[i + 1..], disabled, parse)
  {
    assert fs == fs[..i] + [fs[i]] + fs[i + 1..];
    FragmentEntriesAppend(fs[..i] + [fs[i]], fs[i + 1..], disabled, parse);
    FragmentEntriesAppend(fs[..i], [fs[i]], disabled, parse);
    assert [fs[i]][..0] == [];
    var prior := FragmentEntries(fs[..i], disabled, parse);
    if Disabled(fs[i], disabled) {
      assert FragmentEntries([fs[i]], disabled, parse) == [];
      assert prior + [] == prior;
    }
  }

  /** A disabled fragment contributes nothing: the reload gives the same
      entries as if the fragment did not exist. */
  lemma DisabledFragmentIgnored(fs: seq<Fragment>, i: nat, disabled: set<string>, parse: string -> Option<Entry>)
    requires i < |fs| && Disabled(fs[i], disabled)
    ensures FragmentEntries(fs, disabled, parse) == FragmentEntries(fs[..i] + fs[i + 1..], disabled, parse)
  {
    FragmentContribution(fs, i, disabled, parse);
    FragmentEntriesAppend(fs[..i], fs[i + 1..], disabled, parse);
  }

  /** The rebuilt dictionary is sorted and holds exactly the loaded entries,
      and under each key the base file's phrases come first, then each
      enabled fragment's, each in line order. */
  lemma ReloadResult(base: Option<seq<string>>, fs: seq<Fragment>, disabled: set<string>, parse: string -> Option<Entry>, k: string)
    ensures var r := InsertAll([], ReloadEntries(base, fs, disabled, parse));
      && Sorted(r)
      && |r| == |ReloadEntries(base, fs, disabled, parse)|
      && multiset(r) == multiset(ReloadEntries(base, fs, disabled, parse))
      && WithKey(r, k) == WithKey(match base case Some(lines) => LoadedEntries(lines, parse) case None => [], k)
                          + WithKey(FragmentEntries(fs, disabled, parse), k)
  {
    var es := ReloadEntries(base, fs, disabled, parse);
    InsertAllProps([], es);
    InsertAllKeepsOrder([], es, k);
    WithKeyAppend(match base case Some(lines) => LoadedEntries(lines, parse) case None => [], FragmentEntries(fs, disabled, parse), k);
  }

  class BuiltInQuickPhraseProvider {
    /** map_, in iteration order. */
    var entries: seq<Entry>

    ghost predicate Valid()
      reads this
    {
      Sorted(entries)
    }

    constructor ()
      ensures Valid() && entries == []
    {
      entries := [];
    }

    /** populate: walk from lower_bound(userInput) while keys start with it. */
    method Populate(userInput: string) returns (o: Outcome)
      requires Valid()
      ensures o.proceed
      ensures o.candidates == Lookup(entries, userInput)
    {
      var start := LowerBound(entries, userInput);
      var i := start;
      var cands: seq<Candidate> := [];
      while i < |entries| && StartsWith(entries[i].key, userInput)
        invariant start <= i <= |entries|
        invariant forall k :: start <= k < i ==> StartsWith(entries[k].key, userInput)
        invariant |cands| == i - start
        invariant forall k :: 0 <= k < i - start ==> cands[k] == PrefixCandidate(entries[start + k], userInput)
        decreases |entries| - i
      {
        cands := cands + [PrefixCandidate(entries[i], userInput)];
        i := i + 1;
      }
      PrefixBlock(entries, userInput, i);
      o := Outcome(cands, true);
    }

    /** map_.emplace(key, phrase). */
    method Emplace(e: Entry)
      requires Valid()
      modifies this
      ensures Valid()
      ensures entries == Inserted(old(entries), e)
    {
      InsertedProps(entries, e);
      entries := Inserted(entries, e);
    }

    /** load: emplace the entry of every kept line, in line order. */
    method Load(lines: seq<string>, codec: TextCodec)
      requires Valid()
      modifies this
      ensures Valid()
      ensures entries == InsertAll(old(entries), LoadedEntries(lines, LineParserOf(codec)))
    {
      var parse := LineParserOf(codec);
      for i := 0 to |lines|
        invariant Valid()
        invariant entries == InsertAll(old(entries), LoadedEntries(lines[..i], parse))
      {
        ghost var done := LoadedEntries(lines[..i], parse);
        LoadedEntriesSnoc(lines, i, parse);
        match parse(lines[i])
        case None =>
          assert LoadedEntries(lines[..i + 1], parse) == done + [];
          assert done + [] == done;
        case Some(e) =>
          InsertAllSnoc(old(entries), done, e);
          Emplace(e);
          assert LoadedEntries(lines[..i + 1], parse) == done + [e];
      }
      assert lines[..|lines|] == lines;
    }

    /** reloadConfig: clear the dictionary, load the base file when it could
        be opened, then every fragment that has no ".disable" sibling. */
    method ReloadConfig(base: Option<seq<string>>, fragments: seq<Fragment>, disabled: set<string>, codec: TextCodec)
      modifies this
      ensures Valid()
      ensures entries == InsertAll([], ReloadEntries(base, fragments, disabled, LineParserOf(codec)))
    {
      ghost var parse := LineParserOf(codec);
      entries := [];
      if base.Some? {
        Load(base.value, codec);
      }
      ghost var baseEntries := match base case Some(lines) => LoadedEntries(lines, parse) case None => [];
      assert baseEntries + FragmentEntries(fragments[..0], disabled, parse) == baseEntries;
      for i := 0 to |fragments|
        invariant Valid()
        invariant entries == InsertAll([], baseEntries + FragmentEntries(fragments[..i], disabled, parse))
      {
        ghost var done := baseEntries + FragmentEntries(fragments[..i], disabled, parse);
        ReloadStep(baseEntries, fragments, i, disabled, parse);
        if !Disabled(fragments[i], disabled) {
          Load(fragments[i].lines, codec);
          InsertAllAppend([], done, LoadedEntries(fragments[i].lines, parse));
        }
      }
      assert fragments[..|fragments|] == fragments;
    }
  }
}
