/**
 * The JavaScript string built-ins the core relies on: toLowerCase,
 * lastIndexOf, trim, split on /\s+/ and filtering out empty strings.
 */
module JsString {

  /** A character matched by `\s` in a JavaScript regular expression, and stripped by `trim`. */
  predicate IsWhitespace(c: char) {
    || c == ' ' || c == '\t' || c == '\n' || c == '\U{000B}' || c == '\U{000C}' || c == '\r'
    || c == '\U{00A0}' || c == '\U{1680}' || ('\U{2000}' <= c <= '\U{200A}')
    || c == '\U{2028}' || c == '\U{2029}' || c == '\U{202F}' || c == '\U{205F}'
    || c == '\U{3000}' || c == '\U{FEFF}'
  }

  /** An upper-case letter of Basic Latin or Latin-1 whose lower-case form is 32 code points further on. */
  predicate IsUpper(c: char) {
    ('A' <= c <= 'Z') || ('\U{00C0}' <= c <= '\U{00DE}' && c != '\U{00D7}')
  }

  function LowerChar(c: char): (d: char)
    ensures !IsUpper(d)
    ensures !IsUpper(c) ==> d == c
    ensures IsUpper(c) ==> d as int == c as int + 32
  {
    if IsUpper(c) then (c as int + 32) as char else c
  }

  /** String.prototype.toLowerCase, restricted to the letters IsUpper covers. */
  function LowerCase(s: string): (r: string)
    ensures |r| == |s|
    ensures forall i :: 0 <= i < |s| ==> !IsUpper(r[i])
    ensures forall i :: 0 <= i < |s| && !IsUpper(s[i]) ==> r[i] == s[i]
    ensures forall i :: 0 <= i < |s| && IsUpper(s[i]) ==> r[i] as int == s[i] as int + 32
  {
    seq(|s|, i requires 0 <= i < |s| => LowerChar(s[i]))
  }

  /** Lower-casing twice is lower-casing once. */
  lemma LowerCaseIdempotent(s: string)
    ensures LowerCase(LowerCase(s)) == LowerCase(s)
  {
  }

  /** String.prototype.lastIndexOf for a single character: -1 when `c` does not occur. */
  function LastIndexOf(s: string, c: char): (r: int)
    ensures -1 <= r < |s|
    ensures r >= 0 ==> s[r] == c
    ensures forall i :: r < i < |s| ==> s[i] != c
  {
    if s == [] then -1
    else if s[|s| - 1] == c then |s| - 1
    else LastIndexOf(s[..|s| - 1], c)
  }

  /** Drops the leading whitespace of `s`. */
  function TrimStart(s: string): (r: string)
    ensures |r| <= |s| && r == s[|s| - |r|..]
    ensures r == [] || !IsWhitespace(r[0])
    ensures forall i :: 0 <= i < |s| - |r| ==> IsWhitespace(s[i])
  {
    if s != [] && IsWhitespace(s[0]) then TrimStart(s[1..]) else s
  }

  /** Drops the trailing whitespace of `s`. */
  function TrimEnd(s: string): (r: string)
    ensures |r| <= |s| && r == s[..|r|]
    ensures r == [] || !IsWhitespace(r[|r| - 1])
    ensures forall i :: |r| <= i < |s| ==> IsWhitespace(s[i])
  {
    if s != [] && IsWhitespace(s[|s| - 1]) then TrimEnd(s[..|s| - 1]) else s
  }

  /** Every character of `s` is whitespace. */
  predicate Blank(s: string) {
    forall j :: 0 <= j < |s| ==> IsWhitespace(s[j])
  }

  /** String.prototype.trim: the infix of `s` left once the whitespace at both ends is cut away. */
  function Trim(s: string): (r: string)
    ensures r == [] || (!IsWhitespace(r[0]) && !IsWhitespace(r[|r| - 1]))
    ensures exists lead, trail :: s == lead + r + trail && Blank(lead) && Blank(trail)
  {
    TrimParts(s);
    TrimEnd(TrimStart(s))
  }

  /** The blank lead and trail that trim cuts away. */
  lemma TrimParts(s: string)
    ensures var t := TrimStart(s);
      var r := TrimEnd(t);
      s == s[..|s| - |t|] + r + t[|r|..] && Blank(s[..|s| - |t|]) && Blank(t[|r|..])
  {
    var t := TrimStart(s);
    var r := TrimEnd(t);
    TrimStartCut(s);
    TrimEndCut(t);
    AppendAssoc(s[..|s| - |t|], r, t[|r|..]);
  }

  /** Index of the first whitespace character of `s`, or |s| when there is none. */
  function FirstWhitespace(s: string): (i: nat)
    ensures i <= |s|
    ensures forall j :: 0 <= j < i ==> !IsWhitespace(s[j])
    ensures i < |s| ==> IsWhitespace(s[i])
  {
    if s == [] || IsWhitespace(s[0]) then 0 else 1 + FirstWhitespace(s[1..])
  }

  predicate NoWhitespace(s: string) {
    forall j :: 0 <= j < |s| ==> !IsWhitespace(s[j])
  }

  /**
   * String.prototype.split(/\s+/): the pieces between maximal runs of
   * whitespace. A leading or trailing run gives an empty first or last piece,
   * and the empty string gives [""].
   */
  function SplitWhitespace(s: string): (parts: seq<string>)
    ensures |parts| >= 1
    ensures forall k :: 0 <= k < |parts| ==> NoWhitespace(parts[k])
    decreases |s|
  {
    var i := FirstWhitespace(s);
    if i == |s| then [s]
    else [s[..i]] + SplitWhitespace(TrimStart(s[i..]))
  }

  /** Array.prototype.filter(w => w.length > 0). */
  function NonEmpty(parts: seq<string>): (r: seq<string>)
    ensures |r| <= |parts|
    ensures forall k :: 0 <= k < |r| ==> r[k] != [] && r[k] in parts
    ensures forall k :: 0 <= k < |parts| && parts[k] != [] ==> parts[k] in r
  {
    if parts == [] then []
    else if parts[0] == [] then NonEmpty(parts[1..])
    else [parts[0]] + NonEmpty(parts[1..])
  }

  /** The pieces glued back together. */
  function Flatten(parts: seq<string>): string {
    if parts == [] then [] else parts[0] + Flatten(parts[1..])
  }

  /** The non-whitespace characters of `s`, in order. */
  function RemoveWhitespace(s: string): string {
    if s == [] then []
    else (if IsWhitespace(s[0]) then [] else [s[0]]) + RemoveWhitespace(s[1..])
  }

  lemma {:induction false} RemoveWhitespaceAppend(a: string, b: string)
    ensures RemoveWhitespace(a + b) == RemoveWhitespace(a) + RemoveWhitespace(b)
  {
    if a == [] {
      assert a + b == b;
    } else {
      assert (a + b)[0] == a[0];
      assert (a + b)[1..] == a[1..] + b;
      RemoveWhitespaceAppend(a[1..], b);
    }
  }

  lemma {:induction false} RemoveWhitespaceKeeps(s: string)
    requires NoWhitespace(s)
    ensures RemoveWhitespace(s) == s
  {
    if s != [] {
      RemoveWhitespaceKeeps(s[1..]);
    }
  }

  lemma {:induction false} RemoveWhitespaceDrops(s: string)
    requires forall j :: 0 <= j < |s| ==> IsWhitespace(s[j])
    ensures RemoveWhitespace(s) == []
  {
    if s != [] {
      RemoveWhitespaceDrops(s[1..]);
    }
  }

  /** The whitespace TrimStart drops removes nothing else. */
  lemma RemoveWhitespaceTrimStart(s: string)
    ensures RemoveWhitespace(TrimStart(s)) == RemoveWhitespace(s)
  {
    var t := TrimStart(s);
    var dropped := s[..|s| - |t|];
    assert s == dropped + t;
    RemoveWhitespaceAppend(dropped, t);
    RemoveWhitespaceDrops(dropped);
  }

  /** The whitespace TrimEnd drops removes nothing else. */
  lemma RemoveWhitespaceTrimEnd(s: string)
    ensures RemoveWhitespace(TrimEnd(s)) == RemoveWhitespace(s)
  {
    var u := TrimEnd(s);
    var dropped := s[|u|..];
    assert s == u + dropped;
    RemoveWhitespaceAppend(u, dropped);
    RemoveWhitespaceDrops(dropped);
  }

  /** Trimming loses no character other than whitespace. */
  lemma RemoveWhitespaceTrim(s: string)
    ensures RemoveWhitespace(Trim(s)) == RemoveWhitespace(s)
  {
    RemoveWhitespaceTrimStart(s);
    RemoveWhitespaceTrimEnd(TrimStart(s));
  }

  lemma FlattenCons(head: string, parts: seq<string>)
    ensures Flatten([head] + parts) == head + Flatten(parts)
  {
    assert ([head] + parts)[1..] == parts;
  }

  /** SplitWhitespace splits the leading run of non-whitespace off whole. */
  lemma FlattenSplitHead(s: string)
    requires FirstWhitespace(s) < |s|
    ensures var i := FirstWhitespace(s);
      Flatten(SplitWhitespace(s)) == s[..i] + Flatten(SplitWhitespace(TrimStart(s[i..])))
  {
    var i := FirstWhitespace(s);
    assert SplitWhitespace(s) == [s[..i]] + SplitWhitespace(TrimStart(s[i..]));
    FlattenCons(s[..i], SplitWhitespace(TrimStart(s[i..])));
  }

  /** The characters before the first whitespace hold no whitespace. */
  lemma LeadingRun(s: string)
    ensures NoWhitespace(s[..FirstWhitespace(s)])
  {
    var head := s[..FirstWhitespace(s)];
    forall j | 0 <= j < |head| ensures !IsWhitespace(head[j]) {
      assert head[j] == s[j];
    }
  }

  /** A prefix without whitespace survives RemoveWhitespace whole. */
  lemma RemoveWhitespacePrefix(s: string, i: nat)
    requires i <= |s| && NoWhitespace(s[..i])
    ensures RemoveWhitespace(s) == s[..i] + RemoveWhitespace(s[i..])
  {
    assert s == s[..i] + s[i..];
    RemoveWhitespaceAppend(s[..i], s[i..]);
    RemoveWhitespaceKeeps(s[..i]);
  }

  /** RemoveWhitespace keeps the leading run of non-whitespace whole and drops the whitespace after it. */
  lemma RemoveWhitespaceHead(s: string)
    ensures var i := FirstWhitespace(s);
      RemoveWhitespace(s) == s[..i] + RemoveWhitespace(TrimStart(s[i..]))
  {
    var i := FirstWhitespace(s);
    LeadingRun(s);
    RemoveWhitespacePrefix(s, i);
    RemoveWhitespaceTrimStart(s[i..]);
  }

  /** Splitting on whitespace loses no other character and keeps their order. */
  lemma {:induction false} FlattenSplit(s: string)
    ensures Flatten(SplitWhitespace(s)) == RemoveWhitespace(s)
    decreases |s|
  {
    var i := FirstWhitespace(s);
    if i == |s| {
      assert SplitWhitespace(s) == [s];
      assert Flatten([s]) == s + Flatten([]);
      assert s + [] == s;
      RemoveWhitespaceKeeps(s);
    } else {
      FlattenSplitHead(s);
      RemoveWhitespaceHead(s);
      FlattenSplit(TrimStart(s[i..]));
    }
  }

  /** Dropping empty pieces does not change their concatenation. */
  lemma {:induction false} FlattenNonEmpty(parts: seq<string>)
    ensures Flatten(NonEmpty(parts)) == Flatten(parts)
  {
    if parts != [] {
      FlattenNonEmpty(parts[1..]);
    }
  }

  /** Keeping the non-empty pieces of a concatenation keeps those of each part, in order. */
  lemma {:induction false} NonEmptyAppend(a: seq<string>, b: seq<string>)
    ensures NonEmpty(a + b) == NonEmpty(a) + NonEmpty(b)
  {
    if a == [] {
      assert a + b == b;
    } else {
      assert (a + b)[0] == a[0];
      assert (a + b)[1..] == a[1..] + b;
      NonEmptyAppend(a[1..], b);
    }
  }

  /** A single piece is kept exactly when it is non-empty. */
  lemma NonEmptySingle(x: string)
    ensures NonEmpty([x]) == if x == [] then [] else [x]
  {
    assert [x][1..] == [];
  }

  /** The empty string trims to itself and has no non-empty piece. */
  lemma NoPiecesOfEmpty()
    ensures Trim([]) == []
    ensures NonEmpty(SplitWhitespace([])) == []
  {
    assert SplitWhitespace([]) == [[]];
    assert NonEmpty([[]]) == NonEmpty([]);
  }

  /** Pieces that are all non-empty are kept whole and in order. */
  lemma {:induction false} NonEmptyKeeps(parts: seq<string>)
    requires forall k :: 0 <= k < |parts| ==> parts[k] != []
    ensures NonEmpty(parts) == parts
  {
    if parts != [] {
      NonEmptyKeeps(parts[1..]);
    }
  }

  /** Text without whitespace is one piece. */
  lemma SplitNoWhitespace(s: string)
    requires NoWhitespace(s)
    ensures SplitWhitespace(s) == [s]
  {
    assert FirstWhitespace(s) == |s|;
  }

  lemma FirstWhitespaceLeft(x: string, y: string)
    requires FirstWhitespace(x) < |x|
    ensures FirstWhitespace(x + y) == FirstWhitespace(x)
  {
    assert forall k :: 0 <= k < |x| ==> (x + y)[k] == x[k];
  }

  lemma FirstWhitespaceAt(x: string, y: string)
    requires NoWhitespace(x) && y != [] && IsWhitespace(y[0])
    ensures FirstWhitespace(x + y) == |x|
  {
    assert (x + y)[|x|] == y[0];
    assert forall k :: 0 <= k < |x| ==> (x + y)[k] == x[k];
  }

  /** A blank prefix is cut away whole. */
  lemma {:induction false} TrimStartBlank(x: string, y: string)
    requires Blank(x)
    ensures TrimStart(x + y) == TrimStart(y)
  {
    if x == [] {
      assert x + y == y;
    } else {
      assert (x + y)[0] == x[0];
      assert (x + y)[1..] == x[1..] + y;
      TrimStartBlank(x[1..], y);
    }
  }

  /** When `x` holds a non-whitespace character, TrimStart stops inside it. */
  lemma {:induction false} TrimStartStops(x: string, y: string)
    requires TrimStart(x) != []
    ensures TrimStart(x + y) == TrimStart(x) + y
  {
    assert (x + y)[0] == x[0];
    if IsWhitespace(x[0]) {
      assert (x + y)[1..] == x[1..] + y;
      TrimStartStops(x[1..], y);
    }
  }

  lemma {:induction false} TrimStartNonEmpty(t: string)
    requires t != [] && !IsWhitespace(t[|t| - 1])
    ensures TrimStart(t) != []
  {
  }

  lemma {:induction false} TrimStartShorter(t: string)
    requires t != [] && IsWhitespace(t[0])
    ensures |TrimStart(t)| < |t|
  {
  }

  lemma {:induction false} TrimStartLast(t: string)
    requires TrimStart(t) != []
    ensures TrimStart(t)[|TrimStart(t)| - 1] == t[|t| - 1]
  {
  }

  lemma {:induction false} TrimStartCut(t: string)
    ensures Blank(t[..|t| - |TrimStart(t)|])
    ensures t == t[..|t| - |TrimStart(t)|] + TrimStart(t)
  {
  }

  lemma {:induction false} TrimEndCut(t: string)
    ensures Blank(t[|TrimEnd(t)|..])
    ensures t == TrimEnd(t) + t[|TrimEnd(t)|..]
  {
  }

  /** Text that starts with whitespace and ends without it: TrimStart cuts a run off a shorter rest. */
  lemma {:induction false} TrimStartRun(t: string)
    requires t != [] && IsWhitespace(t[0]) && !IsWhitespace(t[|t| - 1])
    ensures var rest := TrimStart(t);
      && rest != [] && |rest| < |t| && rest[|rest| - 1] == t[|t| - 1]
      && IsGap(t[..|t| - |rest|]) && t == t[..|t| - |rest|] + rest
  {
    TrimStartNonEmpty(t);
    TrimStartShorter(t);
    TrimStartLast(t);
    TrimStartCut(t);
  }

  /** A word, a whitespace run, then text starting with non-whitespace: the word is the first piece. */
  lemma SplitAfterWord(a: string, gap: string, b: string)
    requires a != [] && NoWhitespace(a) && IsGap(gap)
    requires b == [] || !IsWhitespace(b[0])
    ensures SplitWhitespace(a + gap + b) == [a] + SplitWhitespace(b)
  {
    var s := a + gap + b;
    assert s == a + (gap + b);
    assert (gap + b)[0] == gap[0];
    FirstWhitespaceAt(a, gap + b);
    assert s[..|a|] == a && s[|a|..] == gap + b;
    TrimStartBlank(gap, b);
  }

  /**
   * A whitespace run between two pieces of text is a cut of split(/\s+/):
   * the pieces of the whole are those of the left part, then those of the right.
   */
  lemma {:induction false} SplitAppend(a: string, gap: string, b: string)
    requires a != [] && !IsWhitespace(a[|a| - 1])
    requires IsGap(gap)
    requires b == [] || !IsWhitespace(b[0])
    ensures SplitWhitespace(a + gap + b) == SplitWhitespace(a) + SplitWhitespace(b)
    decreases |a|
  {
    var i := FirstWhitespace(a);
    if i == |a| {
      SplitAfterWord(a, gap, b);
      SplitNoWhitespace(a);
    } else {
      var c := gap + b;
      var rest := TrimStart(a[i..]);
      RestAfterCut(a);
      calc {
        SplitWhitespace(a + gap + b);
      == { AppendAssoc(a, gap, b); }
        SplitWhitespace(a + c);
      == { SplitAppendStep(a, c); }
        [a[..i]] + SplitWhitespace(rest + c);
      == { AppendAssoc(rest, gap, b); SplitAppend(rest, gap, b); }
        [a[..i]] + (SplitWhitespace(rest) + SplitWhitespace(b));
      == { AppendAssoc([a[..i]], SplitWhitespace(rest), SplitWhitespace(b)); }
        [a[..i]] + SplitWhitespace(rest) + SplitWhitespace(b);
      == { SplitAppendStep(a, c); }
        SplitWhitespace(a) + SplitWhitespace(b);
      }
    }
  }

  /** What follows the first whitespace run of `a` is shorter and ends as `a` does. */
  lemma RestAfterCut(a: string)
    requires FirstWhitespace(a) < |a| && !IsWhitespace(a[|a| - 1])
    ensures var rest := TrimStart(a[FirstWhitespace(a)..]);
      rest != [] && |rest| < |a| && !IsWhitespace(rest[|rest| - 1])
  {
    var tail := a[FirstWhitespace(a)..];
    assert tail[0] == a[FirstWhitespace(a)] && tail[|tail| - 1] == a[|a| - 1];
    TrimStartNonEmpty(tail);
    TrimStartShorter(tail);
    TrimStartLast(tail);
  }

  lemma AppendAssoc<T>(x: seq<T>, y: seq<T>, z: seq<T>)
    ensures x + (y + z) == x + y + z
  {
  }

  /** The first cut of `a` is also the first cut of `a + c`, and what follows it carries `c` along. */
  lemma SplitAppendStep(a: string, c: string)
    requires FirstWhitespace(a) < |a| && TrimStart(a[FirstWhitespace(a)..]) != []
    ensures var i := FirstWhitespace(a);
      SplitWhitespace(a + c) == [a[..i]] + SplitWhitespace(TrimStart(a[i..]) + c)
      && SplitWhitespace(a) == [a[..i]] + SplitWhitespace(TrimStart(a[i..]))
  {
    var i := FirstWhitespace(a);
    FirstWhitespaceLeft(a, c);
    SliceOfAppend(a, c, i);
    TrimStartStops(a[i..], c);
  }

  lemma SliceOfAppend(a: string, c: string, i: nat)
    requires i <= |a|
    ensures (a + c)[..i] == a[..i] && (a + c)[i..] == a[i..] + c
  {
  }

  /** A word of split(/\s+/) output between cuts: non-empty and without whitespace. */
  predicate IsWord(w: string) {
    w != [] && NoWhitespace(w)
  }

  /** A run of whitespace between two words. */
  predicate IsGap(g: string) {
    g != [] && Blank(g)
  }

  /** The words with the gaps between them. */
  function Join(words: seq<string>, gaps: seq<string>): string
    requires |words| == |gaps| + 1
  {
    if |gaps| == 0 then words[0] else words[0] + gaps[0] + Join(words[1..], gaps[1..])
  }

  /** Words joined by gaps begin with the first word's first character and end with the last word's last. */
  lemma {:induction false} JoinEnds(words: seq<string>, gaps: seq<string>)
    requires |words| == |gaps| + 1
    requires forall k :: 0 <= k < |words| ==> IsWord(words[k])
    ensures var s := Join(words, gaps);
      var last := words[|words| - 1];
      s != [] && words[0] != [] && last != [] && s[0] == words[0][0] && s[|s| - 1] == last[|last| - 1]
  {
    if |gaps| > 0 {
      JoinEnds(words[1..], gaps[1..]);
    }
  }

  /** split(/\s+/) recovers the words of joined text. */
  lemma {:induction false} SplitJoin(words: seq<string>, gaps: seq<string>)
    requires |words| == |gaps| + 1
    requires forall k :: 0 <= k < |words| ==> IsWord(words[k])
    requires forall k :: 0 <= k < |gaps| ==> IsGap(gaps[k])
    ensures SplitWhitespace(Join(words, gaps)) == words
  {
    if |gaps| == 0 {
      SplitNoWhitespace(words[0]);
    } else {
      var rest := Join(words[1..], gaps[1..]);
      SplitJoin(words[1..], gaps[1..]);
      JoinEnds(words[1..], gaps[1..]);
      SplitAfterWord(words[0], gaps[0], rest);
      assert words == [words[0]] + words[1..];
    }
  }

  /**
   * Text with no whitespace at either end is its pieces under split(/\s+/),
   * every one a word, joined by the whitespace runs between them.
   */
  lemma {:induction false} SplitIsJoin(s: string) returns (gaps: seq<string>)
    requires s != [] && !IsWhitespace(s[0]) && !IsWhitespace(s[|s| - 1])
    ensures |SplitWhitespace(s)| == |gaps| + 1
    ensures forall k :: 0 <= k < |SplitWhitespace(s)| ==> IsWord(SplitWhitespace(s)[k])
    ensures forall k :: 0 <= k < |gaps| ==> IsGap(gaps[k])
    ensures Join(SplitWhitespace(s), gaps) == s
    decreases |s|
  {
    var i := FirstWhitespace(s);
    if i == |s| {
      gaps := [];
    } else {
      var tail := s[i..];
      var rest := TrimStart(tail);
      var gap := tail[..|tail| - |rest|];
      RestAfterCut(s);
      FirstGap(s);
      LeadingRun(s);
      Regroup(s, i, gap, rest);
      var more := SplitIsJoin(rest);
      gaps := [gap] + more;
      SplitAfterWord(s[..i], gap, rest);
      JoinStep(s[..i], gap, SplitWhitespace(rest), more);
    }
  }

  lemma Regroup(s: string, i: nat, gap: string, rest: string)
    requires i <= |s| && s[i..] == gap + rest
    ensures s == s[..i] + gap + rest
  {
    AppendAssoc(s[..i], gap, rest);
  }

  /** One word and one gap in front of text that is already its words joined by gaps. */
  lemma JoinStep(word: string, gap: string, words: seq<string>, gaps: seq<string>)
    requires IsWord(word) && IsGap(gap) && |words| == |gaps| + 1
    requires forall k :: 0 <= k < |words| ==> IsWord(words[k])
    requires forall k :: 0 <= k < |gaps| ==> IsGap(gaps[k])
    ensures forall k :: 0 <= k < |words| + 1 ==> IsWord(([word] + words)[k])
    ensures forall k :: 0 <= k < |gaps| + 1 ==> IsGap(([gap] + gaps)[k])
    ensures Join([word] + words, [gap] + gaps) == word + gap + Join(words, gaps)
  {
    assert ([word] + words)[1..] == words && ([gap] + gaps)[1..] == gaps;
  }

  /** From the first whitespace on, text ending in non-whitespace is a whitespace run and a shorter rest. */
  lemma FirstGap(s: string)
    requires FirstWhitespace(s) < |s| && !IsWhitespace(s[|s| - 1])
    ensures var tail := s[FirstWhitespace(s)..];
      var rest := TrimStart(tail);
      |rest| < |tail| && IsGap(tail[..|tail| - |rest|]) && tail == tail[..|tail| - |rest|] + rest
  {
    var tail := s[FirstWhitespace(s)..];
    assert tail[0] == s[FirstWhitespace(s)] && tail[|tail| - 1] == s[|s| - 1];
    TrimStartRun(tail);
  }

  /** TrimStart cuts exactly the whitespace in front of the first non-blank character. */
  lemma TrimStartAt(s: string, p: nat)
    requires p < |s| && !IsWhitespace(s[p])
    requires forall k :: 0 <= k < p ==> IsWhitespace(s[k])
    ensures TrimStart(s) == s[p..]
  {
    var t := TrimStart(s);
    assert |s| - |t| <= p;
    assert t[0] == s[|s| - |t|];
  }

  /** Text whose first non-blank character is at `p` and last at `q - 1` trims to s[p..q]. */
  lemma TrimBounds(s: string, p: nat, q: nat)
    requires p < q <= |s| && !IsWhitespace(s[p]) && !IsWhitespace(s[q - 1])
    requires forall k :: 0 <= k < p ==> IsWhitespace(s[k])
    requires forall k :: q <= k < |s| ==> IsWhitespace(s[k])
    ensures Trim(s) == s[p..q]
  {
    calc {
      Trim(s);
      TrimEnd(TrimStart(s));
    == { TrimStartAt(s, p); }
      TrimEnd(s[p..]);
    == { BlankAfterDrop(s, p, q); TrimEndAt(s[p..], q - p); }
      s[p..][..q - p];
    == { SliceOfDrop(s, p, q); }
      s[p..q];
    }
  }

  /** TrimEnd cuts exactly the whitespace behind the last non-blank character. */
  lemma TrimEndAt(t: string, n: nat)
    requires 0 < n <= |t| && !IsWhitespace(t[n - 1])
    requires forall k :: n <= k < |t| ==> IsWhitespace(t[k])
    ensures TrimEnd(t) == t[..n]
  {
    var r := TrimEnd(t);
    assert n <= |r|;
    assert r[|r| - 1] == t[|r| - 1];
  }

  /** Whitespace from `q` on stays whitespace once the first `p` characters are dropped. */
  lemma BlankAfterDrop(s: string, p: nat, q: nat)
    requires p < q <= |s|
    requires forall k :: q <= k < |s| ==> IsWhitespace(s[k])
    ensures forall k :: q - p <= k < |s| - p ==> IsWhitespace(s[p..][k])
  {
    assert forall k :: q - p <= k < |s| - p ==> s[p..][k] == s[p + k];
  }

  lemma SliceOfDrop(s: string, p: nat, q: nat)
    requires p <= q <= |s|
    ensures s[p..][..q - p] == s[p..q]
  {
  }

  /** Trim cuts exactly a blank lead and a blank trail off text whose ends are not whitespace. */
  lemma TrimFrame(lead: string, mid: string, trail: string)
    requires Blank(lead) && Blank(trail)
    requires mid != [] && !IsWhitespace(mid[0]) && !IsWhitespace(mid[|mid| - 1])
    ensures Trim(lead + mid + trail) == mid
  {
    var s := lead + mid + trail;
    var p, q := |lead|, |lead| + |mid|;
    assert forall k :: 0 <= k < p ==> s[k] == lead[k];
    assert forall k :: q <= k < |s| ==> s[k] == trail[k - q];
    assert s[p] == mid[0] && s[q - 1] == mid[|mid| - 1];
    TrimBounds(s, p, q);
    assert s[p..q] == mid;
  }
}
