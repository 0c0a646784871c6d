/**
 * The input handler's word extraction: only words followed by a space are
 * "completed", and the visualisation is refreshed only when the completed
 * words differ from the current sequence.
 */
module InputWords {
  import opened JsString

  /** The raw text cut just after its last ' ' (empty when there is none). */
  function CompletedText(raw: string): (t: string)
    ensures t <= raw
    ensures t == [] || t[|t| - 1] == ' '
    ensures forall i :: |t| <= i < |raw| ==> raw[i] != ' '
  {
    raw[..LastIndexOf(raw, ' ') + 1]
  }

  /** The completed words: the completed text trimmed, split on whitespace, empty pieces dropped. */
  function CompletedWords(raw: string): (words: seq<string>)
    ensures forall k :: 0 <= k < |words| ==> words[k] != [] && NoWhitespace(words[k])
  {
    NonEmpty(SplitWhitespace(Trim(CompletedText(raw))))
  }

  /** Text without a single ' ' has no completed word. */
  lemma NoSpaceNoWords(raw: string)
    requires forall i :: 0 <= i < |raw| ==> raw[i] != ' '
    ensures CompletedWords(raw) == []
  {
    assert CompletedText(raw) == [];
    NoPiecesOfEmpty();
  }

  /** The word still being typed after the last ' ' never shows up in the result. */
  lemma TypingIgnored(done: string, typing: string)
    requires done == [] || done[|done| - 1] == ' '
    requires forall i :: 0 <= i < |typing| ==> typing[i] != ' '
    ensures CompletedText(done + typing) == CompletedText(done) == done
    ensures CompletedWords(done + typing) == CompletedWords(done)
  {
    var raw := done + typing;
    var t := CompletedText(raw);
    assert raw[..|done|] == done;
    assert t == done;
    assert CompletedText(done) == done by {
      var l := LastIndexOf(done, ' ');
      assert done == [] || l == |done| - 1;
    }
  }

  /** No non-whitespace character of the completed text is lost or reordered. */
  lemma CompletedWordsKeepText(raw: string)
    ensures Flatten(CompletedWords(raw)) == RemoveWhitespace(CompletedText(raw))
  {
    var t := CompletedText(raw);
    FlattenNonEmpty(SplitWhitespace(Trim(t)));
    FlattenSplit(Trim(t));
    RemoveWhitespaceTrim(t);
  }

  /**
   * Words joined by whitespace runs, with blank text around them that ends in ' ',
   * then a word still being typed: the completed words are exactly those words.
   */
  lemma CompletedWordsOfJoin(lead: string, words: seq<string>, gaps: seq<string>, trail: string, typing: string)
    requires |words| == |gaps| + 1
    requires forall k :: 0 <= k < |words| ==> IsWord(words[k])
    requires forall k :: 0 <= k < |gaps| ==> IsGap(gaps[k])
    requires Blank(lead) && Blank(trail) && trail != [] && trail[|trail| - 1] == ' '
    requires forall i :: 0 <= i < |typing| ==> typing[i] != ' '
    ensures CompletedWords(lead + Join(words, gaps) + trail + typing) == words
  {
    var mid := Join(words, gaps);
    var done := lead + mid + trail;
    assert done[|done| - 1] == trail[|trail| - 1];
    TypingIgnored(done, typing);
    JoinEnds(words, gaps);
    TrimFrame(lead, mid, trail);
    SplitJoin(words, gaps);
    NonEmptyKeeps(words);
  }

  /**
   * The trimmed completed text is empty exactly when there is no completed word;
   * otherwise it is the completed words joined by non-empty whitespace runs.
   */
  lemma CompletedWordsJoin(raw: string) returns (gaps: seq<string>)
    ensures var t := Trim(CompletedText(raw));
      var words := CompletedWords(raw);
      && (t == [] <==> words == [])
      && (words != [] ==>
            |words| == |gaps| + 1
            && (forall k :: 0 <= k < |gaps| ==> IsGap(gaps[k]))
            && Join(words, gaps) == t)
  {
    var t := Trim(CompletedText(raw));
    if t == [] {
      NoPiecesOfEmpty();
      gaps := [];
    } else {
      gaps := SplitIsJoin(t);
      NonEmptyKeeps(SplitWhitespace(t));
    }
  }

  /** The change test of the input handler: lengths differ or some position differs. */
  function WordsChanged(next: seq<string>, current: seq<string>): (changed: bool)
    ensures changed <==> next != current
  {
    |next| != |current| || !(forall i :: 0 <= i < |next| ==> next[i] == current[i])
  }
}
