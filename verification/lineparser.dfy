/** The per-line logic of BuiltInQuickPhraseProvider::load: one line of a
    quick-phrase file becomes at most one dictionary entry. */
module LineParser {
  import opened Common
  import opened PrefixDict

  /** The text helpers the loader calls but that are not part of this model:
      utf8::validate, and stringutils::unescape (whose success flag the
      loader ignores, so only the rewritten string matters). */
  datatype TextCodec = TextCodec(validUtf8: string -> bool, unescape: (string, bool) -> string)

  /** std::string(buf.get()): a line read by getline, cut at its first NUL. */
  function CStr(line: string): (r: string)
    ensures StartsWith(line, r)
    ensures forall i :: 0 <= i < |r| ==> r[i] != '\0'
    ensures |r| < |line| ==> line[|r|] == '\0'
  {
    if line == [] || line[0] == '\0' then [] else [line[0]] + CStr(line[1..])
  }

  /** The line without its leading whitespace. */
  function TrimStart(s: string): (r: string)
    ensures |r| <= |s| && r == s[|s| - |r|..]
    ensures forall i :: 0 <= i < |s| - |r| ==> IsWhitespace(s[i])
    ensures r == [] || !IsWhitespace(r[0])
  {
    if s != [] && IsWhitespace(s[0]) then
      var r := TrimStart(s[1..]);
      assert s[1..][|s| - 1 - |r|..] == s[|s| - |r|..];
      r
    else s
  }

  /** The line without its trailing whitespace. */
  function TrimEnd(s: string): (r: string)
    ensures |r| <= |s| && r == s[..|r|]
    ensures forall i :: |r| <= i < |s| ==> IsWhitespace(s[i])
    ensures r == [] || !IsWhitespace(r[|r| - 1])
  {
    if s != [] && IsWhitespace(s[|s| - 1]) then
      var r := TrimEnd(s[..|s| - 1]);
      assert s[..|s| - 1][..|r|] == s[..|r|];
      r
    else s
  }

  /** stringutils::trimInplace, taking the text between the two bounds it returns. */
  function Trim(s: string): (t: string)
    ensures Trimmed(t)
    ensures exists i, j ::
      && 0 <= i <= j <= |s| && t == s[i..j]
      && (forall k :: 0 <= k < i ==> IsWhitespace(s[k]))
      && (forall k :: j <= k < |s| ==> IsWhitespace(s[k]))
  {
    var front := TrimStart(s);
    var i := |s| - |front|;
    var t := TrimEnd(front);
    assert t == s[i..i + |t|];
    t
  }

  /** std::string::find_first_of(FCITX_WHITESPACE, from) when `ws` holds,
      find_first_not_of(FCITX_WHITESPACE, from) otherwise; None is npos. */
  function FindFirst(t: string, from: nat, ws: bool): (r: Option<nat>)
    requires from <= |t|
    ensures r.Some? ==> from <= r.value < |t| && IsWhitespace(t[r.value]) == ws
    ensures r.Some? ==> forall k :: from <= k < r.value ==> IsWhitespace(t[k]) != ws
    ensures r.None? ==> forall k :: from <= k < |t| ==> IsWhitespace(t[k]) != ws
    decreases |t| - from
  {
    if from == |t| then None
    else if IsWhitespace(t[from]) == ws then Some(from)
    else FindFirst(t, from + 1, ws)
  }

  /** A trimmed line: empty, or starting and ending with a non-whitespace character. */
  predicate Trimmed(t: string)
  {
    |t| > 0 ==> !IsWhitespace(t[0]) && !IsWhitespace(t[|t| - 1])
  }

  /** One line of a quick-phrase file, as the loop body of `load` reads it.
      A key it yields is never empty and holds neither whitespace nor NUL. */
  function ParseLine(line: string, codec: TextCodec): (r: Option<Entry>)
    ensures r.Some? ==> |r.value.key| > 0
    ensures r.Some? ==> forall i :: 0 <= i < |r.value.key| ==>
      !IsWhitespace(r.value.key[i]) && r.value.key[i] != '\0'
  {
    ParseText(Trim(CStr(line)), codec)
  }

  /** The loop body of `load` from the trimmed text on. An entry comes only
      from non-empty, valid text, and its key is the whitespace-free start of
      the text up to a whitespace character. */
  function ParseText(text: string, codec: TextCodec): (r: Option<Entry>)
    ensures r.Some? ==> |text| > 0 && codec.validUtf8(text)
    ensures r.Some? ==>
      && |r.value.key| < |text|
      && StartsWith(text, r.value.key)
      && IsWhitespace(text[|r.value.key|])
      && (forall i :: 0 <= i < |r.value.key| ==> !IsWhitespace(r.value.key[i]))
  {
    if |text| == 0 then None
    else if !codec.validUtf8(text) then None
    else match FindFirst(text, 0, true)
      case None => None
      case Some(pos) =>
        match FindFirst(text, pos, false)
        case None => None
        case Some(word) =>
          if text[|text| - 1] == '"' && (text[word] != '"' || word + 1 != |text|) then None
          else
            var key := text[..pos];
            if text[|text| - 1] == '"' && text[word] == '"' then
              Some(Entry(key, codec.unescape(text[word + 1..], true)))
            else
              Some(Entry(key, codec.unescape(text[word..], false)))
  }

  /** Which trimmed lines the loader keeps: non-empty, valid UTF-8, with a
      whitespace somewhere, and, when the line ends in a double quote, with
      nothing but whitespace between the key and that final quote. */
  predicate KeptText(t: string, validUtf8: string -> bool)
  {
    && |t| > 0
    && validUtf8(t)
    && (exists k :: 0 <= k < |t| && IsWhitespace(t[k]))
    && (t[|t| - 1] == '"' ==>
          forall m, n :: 0 <= m < n < |t| - 1 && IsWhitespace(t[m]) ==> IsWhitespace(t[n]))
  }

  /** Once the line is trimmed, the phrase always starts after the key's
      whitespace run, so the loader's `word == npos` exit is never taken. */
  lemma PhraseStartExists(t: string, pos: nat)
    requires |t| > 0 && !IsWhitespace(t[|t| - 1])
    requires pos < |t| && IsWhitespace(t[pos])
    ensures FindFirst(t, pos, false).Some? && FindFirst(t, pos, false).value > pos
  {
  }

  /** A line yields an entry exactly when its trimmed text is kept. */
  lemma ParseLineKept(line: string, codec: TextCodec)
    ensures ParseLine(line, codec).Some? <==> KeptText(Trim(CStr(line)), codec.validUtf8)
  {
    ParseTextKept(Trim(CStr(line)), codec);
  }

  lemma ParseTextKept(t: string, codec: TextCodec)
    requires Trimmed(t)
    ensures ParseText(t, codec).Some? <==> KeptText(t, codec.validUtf8)
  {
    if |t| > 0 && codec.validUtf8(t) {
      match FindFirst(t, 0, true)
      case None =>
      case Some(pos) =>
        PhraseStartExists(t, pos);
        var word := FindFirst(t, pos, false).value;
        if t[|t| - 1] == '"' {
          if word + 1 == |t| {
            forall m, n | 0 <= m < n < |t| - 1 && IsWhitespace(t[m])
              ensures IsWhitespace(t[n])
            {
              assert pos <= m;
            }
          } else {
            assert pos < word < |t| - 1 && IsWhitespace(t[pos]) && !IsWhitespace(t[word]);
          }
        }
    }
  }

  /** The shape of a kept entry: a non-empty key free of whitespace that
      starts the trimmed line and is followed by whitespace; the phrase is the
      unescaped rest of the line after that whitespace run, except that a
      line ending in a double quote keeps only an empty, quote-mode phrase. */
  lemma ParseLineFields(line: string, codec: TextCodec, e: Entry)
    requires ParseLine(line, codec) == Some(e)
    ensures KeptFields(Trim(CStr(line)), codec, e)
  {
    ParseTextFields(Trim(CStr(line)), codec, e);
  }

  /** The fields of the entry `e` kept from the trimmed text `t`: a non-empty
      key free of whitespace that starts `t` and is followed by whitespace;
      the phrase is the unescaped rest of `t` after that whitespace run,
      except that text ending in a double quote keeps only an empty,
      quote-mode phrase. */
  predicate KeptFields(t: string, codec: TextCodec, e: Entry)
  {
    && 0 < |e.key| < |t|
    && StartsWith(t, e.key)
    && (forall i :: 0 <= i < |e.key| ==> !IsWhitespace(e.key[i]))
    && IsWhitespace(t[|e.key|])
    && if t[|t| - 1] == '"' then
         TrimStart(t[|e.key|..]) == "\"" && e.phrase == codec.unescape("", true)
       else
         e.phrase == codec.unescape(TrimStart(t[|e.key|..]), false)
  }

  lemma ParseTextFields(t: string, codec: TextCodec, e: Entry)
    requires Trimmed(t)
    requires ParseText(t, codec) == Some(e)
    ensures KeptFields(t, codec, e)
  {
    if t[|t| - 1] == '"' {
      QuotedPhrase(t, codec, e);
    } else {
      PlainPhrase(t, codec, e);
    }
  }

  /** Text ending in a double quote: the phrase is the empty quote-mode one. */
  lemma QuotedPhrase(t: string, codec: TextCodec, e: Entry)
    requires ParseText(t, codec) == Some(e) && t[|t| - 1] == '"'
    ensures TrimStart(t[|e.key|..]) == "\"" && e.phrase == codec.unescape("", true)
  {
    var pos := FindFirst(t, 0, true).value;
    var word := FindFirst(t, pos, false).value;
    assert e.key == t[..pos];
    PhraseAfterKey(t, pos, word);
    assert word + 1 == |t| && t[word] == '"';
    assert e.phrase == codec.unescape(t[word + 1..], true);
    assert t[word..] == "\"";
    assert t[word + 1..] == "";
  }

  /** Any other text: the phrase is the unescaped rest after the key's
      whitespace run. */
  lemma PlainPhrase(t: string, codec: TextCodec, e: Entry)
    requires ParseText(t, codec) == Some(e) && t[|t| - 1] != '"'
    ensures e.phrase == codec.unescape(TrimStart(t[|e.key|..]), false)
  {
    var pos := FindFirst(t, 0, true).value;
    var word := FindFirst(t, pos, false).value;
    assert e.key == t[..pos];
    PhraseAfterKey(t, pos, word);
    assert e.phrase == codec.unescape(t[word..], false);
  }

  /** The phrase starts where the whitespace run after the key ends. */
  lemma PhraseAfterKey(t: string, pos: nat, word: nat)
    requires pos <= word < |t| && !IsWhitespace(t[word])
    requires forall k :: pos <= k < word ==> IsWhitespace(t[k])
    ensures TrimStart(t[pos..]) == t[word..]
  {
    TrimStartAt(t[pos..], word - pos);
    assert t[pos..][word - pos..] == t[word..];
  }

  /** Trimming the front skips exactly the leading whitespace run. */
  lemma {:induction false} TrimStartAt(s: string, k: nat)
    requires k < |s| && !IsWhitespace(s[k])
    requires forall i :: 0 <= i < k ==> IsWhitespace(s[i])
    ensures TrimStart(s) == s[k..]
  {
    if k > 0 {
      assert IsWhitespace(s[0]);
      TrimStartAt(s[1..], k - 1);
    }
  }

  /** Quote rule as the loader is written: a phrase in double quotes is
      dropped, and only a bare closing quote after the key is kept. */
  lemma QuotedPhraseDropped(codec: TextCodec)
    requires codec.validUtf8("key \"abc\"")
    ensures ParseText("key \"abc\"", codec) == None
  {
  }
}
