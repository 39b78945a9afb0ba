/** The field scanner of the bulk employee import
    (components/employee-management.tsx:109 and :138): a global match of
    `/(".*?"|[^",\s]+)(?=\s*,|\s*$)/g`, followed per token by
    `.replace(/^"|"$/g, "").trim()` (lines 109 and 144-147).

    The expression has no look-behind and its `$` means "end of input", so
    whether it matches at a position depends only on the text from there on.
    The scanner is therefore written on suffixes: `MatchAt(s)` is the match
    attempted at the start of `s`. */
module Tokenizer {
  import opened Common
  import opened Text

  /** Characters of the unquoted alternative `[^",\s]`. */
  predicate IsBareChar(c: char) {
    c != '"' && c != ',' && !IsWhitespace(c)
  }

  predicate AllBare(s: string) {
    forall i :: 0 <= i < |s| ==> IsBareChar(s[i])
  }

  /** The look-ahead `(?=\s*,|\s*$)` on the text `t` after a candidate match. */
  predicate LookaheadOk(t: string) {
    var k := LeadingWhitespace(t);
    k == |t| || t[k] == ','
  }

  /** The look-ahead succeeds exactly when some run of white space is
      followed by a comma or by the end of the text. */
  lemma LookaheadMeaning(t: string)
    ensures LookaheadOk(t) <==>
      exists k :: 0 <= k <= |t| && AllWhitespace(t[..k]) && (k == |t| || t[k] == ',')
  {
    var k0 := LeadingWhitespace(t);
    if LookaheadOk(t) {
      assert AllWhitespace(t[..k0]) && (k0 == |t| || t[k0] == ',');
    } else {
      forall k | 0 <= k <= |t| && AllWhitespace(t[..k])
        ensures !(k == |t| || t[k] == ',')
      {
        if k < k0 {
          assert t[..k0][k] == t[k];
        }
      }
    }
  }

  // ------------------------------------------------ alternative 1: ".*?"

  /** Does a quoted token have this shape: a quote, characters that are not
      line terminators, a quote. */
  predicate IsQuotedToken(t: string) {
    |t| >= 2 && t[0] == '"' && t[|t| - 1] == '"'
    && forall i :: 1 <= i < |t| - 1 ==> !IsLineTerminator(t[i])
  }

  /** A quote at `i` that may end a quoted match: its look-ahead holds. */
  predicate ClosesAt(s: string, i: nat)
    requires i < |s|
  {
    s[i] == '"' && LookaheadOk(s[i + 1..])
  }

  /** The lazy `.*?"`: the first quote at or after `q`, reached without
      crossing a line terminator, whose look-ahead holds. Returns the length
      of the whole match. */
  function CloseQuote(s: string, q: nat): (r: Option<nat>)
    requires 1 <= q <= |s|
    ensures r.Some? ==> q < r.value <= |s| && ClosesAt(s, r.value - 1)
    ensures r.Some? ==> forall i :: q <= i < r.value - 1 ==> !IsLineTerminator(s[i])
    ensures r.Some? ==> forall i :: q <= i < r.value - 1 ==> !ClosesAt(s, i)
    decreases |s| - q
  {
    if q == |s| || IsLineTerminator(s[q]) then None
    else if ClosesAt(s, q) then Some(q + 1)
    else CloseQuote(s, q + 1)
  }

  // ------------------------------------------- alternative 2: [^",\s]+

  /** The end of the longest run of bare characters starting at `i`. */
  function BareRunEnd(s: string, i: nat): (e: nat)
    requires i <= |s|
    ensures i <= e <= |s|
    ensures forall k :: i <= k < e ==> IsBareChar(s[k])
    ensures e == |s| || !IsBareChar(s[e])
    decreases |s| - i
  {
    if i < |s| && IsBareChar(s[i]) then BareRunEnd(s, i + 1) else i
  }

  /** The greedy `+` backtracking: try the run of length `e`, then shorter
      ones, until the look-ahead holds. */
  function BareBacktrack(s: string, e: nat): (r: Option<nat>)
    requires e <= |s|
    ensures r.Some? ==> 1 <= r.value <= e && LookaheadOk(s[r.value..])
    decreases e
  {
    if e == 0 then None
    else if LookaheadOk(s[e..]) then Some(e)
    else BareBacktrack(s, e - 1)
  }

  // ------------------------------------------------------ the scanner

  /** One match attempt at the start of `s`: the length of the match, if any.
      The quoted alternative is tried first. */
  function MatchAt(s: string): (r: Option<nat>)
    requires s != []
    ensures r.Some? ==> 0 < r.value <= |s| && LookaheadOk(s[r.value..])
    ensures r.Some? ==> IsQuotedToken(s[..r.value]) || (s[0] != '"' && AllBare(s[..r.value]))
  {
    var quoted := if s[0] == '"' then CloseQuote(s, 1) else None;
    if quoted.Some? then
      quoted
    else
      var r := BareBacktrack(s, BareRunEnd(s, 0));
      assert r.Some? ==> AllBare(s[..r.value]);
      r
  }

  /** The shape of every match: a quoted run or a bare run. */
  predicate IsToken(t: string) {
    t != [] && (IsQuotedToken(t) || (t[0] != '"' && AllBare(t)))
  }

  /** All matches of the global expression, left to right, as `String.prototype.match`
      returns them (an absent result, `null`, is the empty sequence here). */
  function Tokens(s: string): (r: seq<string>)
    ensures forall i :: 0 <= i < |r| ==> IsToken(r[i])
    decreases |s|
  {
    if s == [] then []
    else
      match MatchAt(s)
      case Some(n) => [s[..n]] + Tokens(s[n..])
      case None => Tokens(s[1..])
  }

  /** `.replace(/^"|"$/g, "")`: drop one leading and one trailing quote. A
      lone quote is dropped once. */
  function StripQuotes(t: string): (r: string)
    ensures |t| - 2 <= |r| <= |t|
    ensures (t == [] || (t[0] != '"' && t[|t| - 1] != '"')) ==> r == t
  {
    var a := if |t| > 0 && t[0] == '"' then 1 else 0;
    var b := if |t| > a && t[|t| - 1] == '"' then |t| - 1 else |t|;
    t[a..b]
  }

  /** The value a token contributes: quotes stripped, then trimmed. */
  function FieldValue(t: string): string {
    Trim(StripQuotes(t))
  }

  /** The values of a sequence of tokens. */
  function FieldValues(ts: seq<string>): (r: seq<string>)
    ensures |r| == |ts|
    ensures forall i :: 0 <= i < |ts| ==> r[i] == FieldValue(ts[i])
  {
    if ts == [] then [] else [FieldValue(ts[0])] + FieldValues(ts[1..])
  }

  /** The values of all tokens of a line. */
  function Fields(line: string): (r: seq<string>)
    ensures |r| == |Tokens(line)|
  {
    FieldValues(Tokens(line))
  }

  // ----------------------------------------------------------- lemmas

  /** Backtracking never helps: a shorter bare run is followed by a bare
      character, which is neither white space nor a comma. */
  lemma ShorterRunFails(s: string, e: nat)
    requires 0 < e < BareRunEnd(s, 0)
    ensures !LookaheadOk(s[e..])
  {
    assert IsBareChar(s[e]);
    assert LeadingWhitespace(s[e..]) == 0;
  }

  lemma {:induction false} BacktrackBelowRunFails(s: string, e: nat)
    requires e < BareRunEnd(s, 0)
    ensures BareBacktrack(s, e) == None
    decreases e
  {
    if e > 0 {
      ShorterRunFails(s, e);
      BacktrackBelowRunFails(s, e - 1);
    }
  }

  /** The bare alternative matches the whole run or nothing at all. */
  lemma BareMatchIsMaximal(s: string)
    requires s != [] && IsBareChar(s[0])
    ensures MatchAt(s) == if LookaheadOk(s[BareRunEnd(s, 0)..]) then Some(BareRunEnd(s, 0)) else None
  {
    var e := BareRunEnd(s, 0);
    if !LookaheadOk(s[e..]) {
      BacktrackBelowRunFails(s, e - 1);
    }
  }

  /** A separator character (comma or white space) never starts a match. */
  lemma SeparatorStartsNoMatch(s: string)
    requires s != [] && (s[0] == ',' || IsWhitespace(s[0]))
    ensures MatchAt(s) == None && Tokens(s) == Tokens(s[1..])
  {
    assert BareRunEnd(s, 0) == 0;
  }

  /** A bare word followed by a comma (or the end) is one token. */
  lemma BareWordToken(w: string, rest: string)
    requires w != [] && AllBare(w)
    requires rest == [] || rest[0] == ','
    ensures Tokens(w + rest) == [w] + Tokens(rest)
  {
    var s := w + rest;
    BareRunAll(s, w, 0);
    assert s[|w|..] == rest;
    BareMatchIsMaximal(s);
    assert s[..|w|] == w;
  }

  lemma {:induction false} BareRunAll(s: string, w: string, i: nat)
    requires AllBare(w) && i <= |w| <= |s| && s[..|w|] == w
    requires |w| == |s| || !IsBareChar(s[|w|])
    ensures BareRunEnd(s, i) == |w|
    decreases |w| - i
  {
    if i < |w| {
      assert s[i] == w[i];
      BareRunAll(s, w, i + 1);
    }
  }

  /** Splitting on commas and scanning agree on bare fields: the scanner
      returns exactly the non-empty fields, in order. Empty fields vanish. */
  lemma {:induction false} TokensOfBareFields(fields: seq<string>)
    requires |fields| >= 1
    requires forall i :: 0 <= i < |fields| ==> AllBare(fields[i])
    ensures Tokens(JoinWith(fields, ',')) == NonEmpty(fields)
  {
    var f := fields[0];
    assert AllBare(f);
    if |fields| == 1 {
      assert NonEmpty(fields) == NonEmpty([f]);
      if f != [] {
        BareWordToken(f, []);
        assert f + [] == f;
      }
    } else {
      var tail := JoinWith(fields[1..], ',');
      var s := f + [','] + tail;
      assert JoinWith(fields, ',') == s;
      assert NonEmpty(fields) == NonEmpty([f]) + NonEmpty(fields[1..]);
      TokensOfBareFields(fields[1..]);
      BareFieldThenComma(f, tail);
    }
  }

  lemma BareFieldThenComma(f: string, tail: string)
    requires AllBare(f)
    ensures Tokens(f + [','] + tail) == NonEmpty([f]) + Tokens(tail)
  {
    var rest := [','] + tail;
    assert Tokens(rest) == Tokens(tail) by {
      SeparatorStartsNoMatch(rest);
      assert rest[1..] == tail;
    }
    assert f + [','] + tail == f + rest;
    if f != [] {
      assert NonEmpty([f]) == [f];
      BareWordToken(f, rest);
    } else {
      assert NonEmpty([f]) == [];
      assert f + rest == rest;
    }
  }

  /** The non-empty strings of a sequence, in order. */
  function NonEmpty(xs: seq<string>): (r: seq<string>)
    ensures |r| <= |xs|
  {
    if xs == [] then []
    else (if xs[0] == [] then [] else [xs[0]]) + NonEmpty(xs[1..])
  }

  /** Inside an unquoted field the scanner skips every word but the last: a
      run of bare characters followed by white space and then another bare
      character fails the look-ahead, however it is shortened. */
  lemma {:induction false} EarlierWordSkipped(w: string, c: char, rest: string)
    requires AllBare(w) && IsWhitespace(c)
    requires rest != [] && IsBareChar(rest[0])
    ensures Tokens(w + [c] + rest) == Tokens(rest)
    decreases |w|
  {
    var s := w + [c] + rest;
    if w == [] {
      assert s == [c] + rest;
      SeparatorStartsNoMatch(s);
      assert s[1..] == rest;
    } else {
      BareRunAll(s, w, 0);
      assert s[|w|..] == [c] + rest;
      assert LeadingWhitespace([c] + rest) == 1 + LeadingWhitespace(rest) == 1 by {
        assert ([c] + rest)[1..] == rest;
      }
      BareMatchIsMaximal(s);
      assert s[1..] == w[1..] + [c] + rest;
      EarlierWordSkipped(w[1..], c, rest);
    }
  }

  /** A quoted field whose content has no quote and no line terminator is
      one token, commas included. */
  lemma QuotedToken(content: string, rest: string)
    requires '"' !in content
    requires forall i :: 0 <= i < |content| ==> !IsLineTerminator(content[i])
    requires LookaheadOk(rest)
    ensures Tokens(['"'] + content + ['"'] + rest) == [['"'] + content + ['"']] + Tokens(rest)
  {
    var s := ['"'] + content + ['"'] + rest;
    var n := |content| + 2;
    assert s[n..] == rest;
    CloseQuoteSkipsContent(s, content, 1);
    assert s[..n] == ['"'] + content + ['"'];
  }

  lemma {:induction false} CloseQuoteSkipsContent(s: string, content: string, q: nat)
    requires 1 <= q <= |content| + 1
    requires |content| + 2 <= |s| && s[..|content| + 2] == ['"'] + content + ['"']
    requires '"' !in content
    requires forall i :: 0 <= i < |content| ==> !IsLineTerminator(content[i])
    requires LookaheadOk(s[|content| + 2..])
    ensures CloseQuote(s, q) == Some(|content| + 2)
    decreases |content| + 1 - q
  {
    assert s[q] == s[..|content| + 2][q];
    if q <= |content| {
      assert s[q] == content[q - 1];
      CloseQuoteSkipsContent(s, content, q + 1);
    }
  }

  /** The value of a quoted token is its trimmed content. */
  lemma QuotedFieldValue(content: string)
    ensures FieldValue(['"'] + content + ['"']) == Trim(content)
  {
    var t := ['"'] + content + ['"'];
    assert t[1..|t| - 1] == content;
  }

  /** A bare token is its own value. */
  lemma BareFieldValue(w: string)
    requires w != [] && AllBare(w)
    ensures FieldValue(w) == w
  {
    assert w[0..|w|] == w;
    TrimNoOuterWhitespace(w);
  }

  // ------------------------------------------------ multi-word fields

  /** Words that may form an unquoted field: at least one, each a
      non-empty run of bare characters. */
  predicate GoodWords(words: seq<string>) {
    |words| >= 1 && forall i :: 0 <= i < |words| ==> words[i] != [] && AllBare(words[i])
  }

  lemma JoinStartsWithFirst(words: seq<string>, sep: char)
    requires |words| >= 1 && words[0] != []
    ensures JoinWith(words, sep) != [] && JoinWith(words, sep)[0] == words[0][0]
  {
    if |words| > 1 {
      assert JoinWith(words, sep) == words[0] + ([sep] + JoinWith(words[1..], sep));
    }
  }

  /** An unquoted field of space-separated words yields only its last word:
      every earlier word fails the look-ahead. */
  lemma {:induction false} PhraseKeepsLastWord(words: seq<string>, rest: string)
    requires GoodWords(words)
    requires rest == [] || rest[0] == ','
    ensures Tokens(JoinWith(words, ' ') + rest) == [words[|words| - 1]] + Tokens(rest)
    decreases |words|
  {
    if |words| == 1 {
      BareWordToken(words[0], rest);
    } else {
      var tail := JoinWith(words[1..], ' ');
      var last := words[|words| - 1];
      assert Tokens(tail + rest) == [last] + Tokens(rest) by {
        assert GoodWords(words[1..]) by {
          assert forall i :: 0 <= i < |words| - 1 ==> words[1..][i] == words[i + 1];
        }
        assert words[1..][|words[1..]| - 1] == last;
        PhraseKeepsLastWord(words[1..], rest);
      }
      assert Tokens(JoinWith(words, ' ') + rest) == Tokens(tail + rest) by {
        JoinStartsWithFirst(words[1..], ' ');
        assert JoinWith(words, ' ') + rest == words[0] + [' '] + (tail + rest);
        EarlierWordSkipped(words[0], ' ', tail + rest);
      }
    }
  }

  /** A phrase followed by a comma contributes its last word only. */
  lemma PhraseThenComma(words: seq<string>, tail: string)
    requires GoodWords(words)
    ensures Tokens(JoinWith(words, ' ') + [','] + tail) == [words[|words| - 1]] + Tokens(tail)
  {
    var rest := [','] + tail;
    PhraseKeepsLastWord(words, rest);
    assert Tokens(rest) == Tokens(tail) by {
      SeparatorStartsNoMatch(rest);
      assert rest[1..] == tail;
    }
    assert JoinWith(words, ' ') + [','] + tail == JoinWith(words, ' ') + rest;
  }

  /** The fields of a line, each a phrase of words. */
  function Phrases(fields: seq<seq<string>>): (r: seq<string>)
    ensures |r| == |fields|
    ensures forall i :: 0 <= i < |fields| ==> r[i] == JoinWith(fields[i], ' ')
  {
    if fields == [] then [] else [JoinWith(fields[0], ' ')] + Phrases(fields[1..])
  }

  /** The last word of every field. */
  function LastWords(fields: seq<seq<string>>): (r: seq<string>)
    requires forall i :: 0 <= i < |fields| ==> fields[i] != []
    ensures |r| == |fields|
    ensures forall i :: 0 <= i < |fields| ==> r[i] == fields[i][|fields[i]| - 1]
  {
    if fields == [] then [] else [fields[0][|fields[0]| - 1]] + LastWords(fields[1..])
  }

  /** A line of unquoted multi-word fields scans to the last word of each. */
  lemma {:induction false} PhrasesKeepLastWords(fields: seq<seq<string>>)
    requires |fields| >= 1
    requires forall i :: 0 <= i < |fields| ==> fields[i] != [] && GoodWords(fields[i])
    ensures Tokens(JoinWith(Phrases(fields), ',')) == LastWords(fields)
  {
    var ps := Phrases(fields);
    var lasts := LastWords(fields);
    if |fields| == 1 {
      assert Tokens(JoinWith(ps, ',')) == [lasts[0]] by {
        PhraseKeepsLastWord(fields[0], []);
        assert JoinWith(fields[0], ' ') + [] == JoinWith(ps, ',');
      }
    } else {
      var others := fields[1..];
      var first := fields[0];
      assert lasts == [first[|first| - 1]] + LastWords(others);
      assert ps == [JoinWith(first, ' ')] + Phrases(others);
      var tail := JoinWith(Phrases(others), ',');
      JoinCons(JoinWith(first, ' '), Phrases(others), ',');
      assert GoodWords(first);
      assert Tokens(tail) == LastWords(others) by {
        assert forall i :: 0 <= i < |others| ==> others[i] == fields[i + 1];
        PhrasesKeepLastWords(others);
      }
      PhraseThenComma(first, tail);
    }
  }
}
