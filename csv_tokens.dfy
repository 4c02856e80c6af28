/** The row tokenizer of App.tsx: `line.match(/(".*?"|[^",]+)(?=\s*,|\s*$)/g) || []`.
    Whether a match starts at some position depends only on the rest of the line (the
    pattern has no look-behind, and without the `m` flag `$` is the end of the input),
    so the functions below take the remaining suffix `s` of the line. */
module CsvTokens {
  import opened Wrappers
  import opened Text

  predicate AllWhitespace(t: string) {
    forall i :: 0 <= i < |t| ==> IsWhitespace(t[i])
  }

  predicate NoLineTerminator(t: string) {
    forall i :: 0 <= i < |t| ==> !IsLineTerminator(t[i])
  }

  /** The look-ahead `(?=\s*,|\s*$)`, decided without backtracking: after the leading
      whitespace of `s` comes a comma or the end of the line. */
  predicate FieldEnds(s: string) {
    var w := LeadingWhitespace(s);
    w == |s| || s[w] == ','
  }

  /** The look-ahead as the regex reads it: some run of whitespace (`\s*` may backtrack)
      is followed by a comma or by the end of the line. */
  ghost predicate FieldEndsSomeWay(s: string) {
    exists k :: 0 <= k <= |s| && AllWhitespace(s[..k]) && (k == |s| || s[k] == ',')
  }

  /** Skipping all the whitespace decides the look-ahead exactly as backtracking does. */
  lemma FieldEndsIffSomeWay(s: string)
    ensures FieldEnds(s) <==> FieldEndsSomeWay(s)
  {
    var w := LeadingWhitespace(s);
    if FieldEnds(s) {
      assert AllWhitespace(s[..w]);
    }
    if k :| 0 <= k <= |s| && AllWhitespace(s[..k]) && (k == |s| || s[k] == ',') {
      assert forall j :: 0 <= j < k ==> s[..k][j] == s[j];
    }
  }

  /** A comma, or nothing at all, ends a field. */
  lemma FieldEndsAtComma(s: string)
    requires s == [] || s[0] == ','
    ensures FieldEnds(s)
  {
    if s != [] {
      assert !IsWhitespace(s[0]);
    }
  }

  /** `e` is an end at which the first alternative `".*?"` and the look-ahead match at the
      start of `s`: an opening quote, characters other than line terminators (the regex
      `.`), a closing quote at `e - 1`, and a field end after it. */
  predicate QuotedEndsAt(s: string, e: int) {
    && 2 <= e <= |s| && s[0] == '"' && s[e - 1] == '"'
    && NoLineTerminator(s[1..e - 1]) && FieldEnds(s[e..])
  }

  /** The lazy `.*?`: tries the closing positions from `e` upward and stops at the first
      that works, or at the first line terminator. */
  function ShortestQuoted(s: string, e: nat): (r: Option<nat>)
    requires |s| >= 1 && s[0] == '"' && 2 <= e <= |s| + 1
    requires NoLineTerminator(s[1..e - 1])
    decreases |s| + 1 - e
    ensures r.Some? ==> e <= r.value && QuotedEndsAt(s, r.value)
    ensures r.Some? ==> forall e' :: e <= e' < r.value ==> !QuotedEndsAt(s, e')
    ensures r.None? ==> forall e' :: e <= e' ==> !QuotedEndsAt(s, e')
  {
    if e > |s| then None
    else if s[e - 1] == '"' && FieldEnds(s[e..]) then Some(e)
    else if IsLineTerminator(s[e - 1]) then
      LineTerminatorEndsQuote(s, e);
      None
    else
      assert s[1..e] == s[1..e - 1] + [s[e - 1]];
      ShortestQuoted(s, e + 1)
  }

  /** `.` cannot step over a line terminator, so no closing quote after one counts. */
  lemma LineTerminatorEndsQuote(s: string, e: nat)
    requires 2 <= e <= |s| && IsLineTerminator(s[e - 1])
    ensures forall e' :: e <= e' ==> !QuotedEndsAt(s, e')
  {
    forall e' | e < e'
      ensures !QuotedEndsAt(s, e')
    {
      if e' <= |s| {
        assert s[1..e' - 1][e - 2] == s[e - 1];
      }
    }
  }

  /** How far `[^",]+` can reach: the length of the run of characters other than `"` and
      `,` at the start of `s`. */
  function RunLength(s: string): (n: nat)
    ensures n <= |s|
    ensures forall i :: 0 <= i < n ==> s[i] != '"' && s[i] != ','
    ensures n == |s| || s[n] == '"' || s[n] == ','
  {
    if s == [] || s[0] == '"' || s[0] == ',' then 0 else 1 + RunLength(s[1..])
  }

  /** `e` is an end at which the second alternative `[^",]+` and the look-ahead match at
      the start of `s`. */
  predicate UnquotedEndsAt(s: string, e: int) {
    1 <= e <= RunLength(s) && FieldEnds(s[e..])
  }

  /** The greedy `[^",]+`: tries the ends from `e` downward and stops at the first that
      works. */
  function LongestUnquoted(s: string, e: nat): (r: Option<nat>)
    requires e <= RunLength(s)
    ensures r.Some? ==> r.value <= e && UnquotedEndsAt(s, r.value)
    ensures r.Some? ==> forall e' :: r.value < e' <= e ==> !UnquotedEndsAt(s, e')
    ensures r.None? ==> forall e' :: e' <= e ==> !UnquotedEndsAt(s, e')
  {
    if e == 0 then None
    else if FieldEnds(s[e..]) then Some(e)
    else LongestUnquoted(s, e - 1)
  }

  /** The length of the match that starts at the first character of `s`, if any. The
      quoted alternative is tried first; a quote that it cannot close starts no match,
      since `[^",]` cannot begin with a quote. */
  function MatchAt(s: string): (r: Option<nat>)
    ensures r.Some? ==> 0 < r.value <= |s| && FieldEnds(s[r.value..])
    ensures s != [] && s[0] == '"' ==>
      && (r.Some? <==> exists e :: QuotedEndsAt(s, e))
      && (r.Some? ==> QuotedEndsAt(s, r.value))
      && (r.Some? ==> forall e :: 2 <= e < r.value ==> !QuotedEndsAt(s, e))
    ensures (s == [] || s[0] != '"') ==>
      && (r.Some? <==> exists e :: UnquotedEndsAt(s, e))
      && (r.Some? ==> UnquotedEndsAt(s, r.value))
      && (r.Some? ==> forall e :: r.value < e ==> !UnquotedEndsAt(s, e))
  {
    if s != [] && s[0] == '"' then ShortestQuoted(s, 2)
    else LongestUnquoted(s, RunLength(s))
  }

  /** A token as the pattern can produce it: a quoted span, or a run without quotes and
      commas. */
  predicate IsToken(t: string) {
    || (|t| >= 2 && t[0] == '"' && t[|t| - 1] == '"')
    || (t != [] && '"' !in t && ',' !in t)
  }

  /** All matches, from left to right; where no match starts, the scan moves on by one
      character. `|| []` makes "no match" (`null`) the empty list. */
  function Tokens(s: string): (r: seq<string>)
    ensures forall i :: 0 <= i < |r| ==> IsToken(r[i])
    decreases |s|
  {
    if s == [] then []
    else
      match MatchAt(s)
      case Some(n) =>
        assert IsToken(s[..n]) by {
          if s[0] != '"' {
            assert forall i :: 0 <= i < n ==> s[..n][i] == s[i];
          }
        }
        [s[..n]] + Tokens(s[n..])
      case None => Tokens(s[1..])
  }

  /** One field of a well-formed line: plain text, or a quoted body written `"body"`. */
  datatype Field = Plain(text: string) | Quoted(body: string)

  /** A plain field holds no quote and no comma; a quoted body holds no quote and no
      line terminator (it may hold commas). */
  predicate WellFormed(f: Field) {
    match f
    case Plain(t) => IsPlainText(t)
    case Quoted(b) => '"' !in b && NoLineTerminator(b)
  }

  function Render(f: Field): string {
    match f
    case Plain(t) => t
    case Quoted(b) => ['"'] + b + ['"']
  }

  /** What a field holds: the plain text, or the body between the quotes. */
  function Content(f: Field): string {
    match f
    case Plain(t) => t
    case Quoted(b) => b
  }

  /** Removing the quotes of a written well-formed field gives back what it holds. */
  lemma RemoveQuotesOfRender(f: Field)
    requires WellFormed(f)
    ensures RemoveQuotes(Render(f)) == Content(f)
  {
    if f.Quoted? {
      RemoveQuotesOfQuoted(f.body);
    }
  }

  function Rendered(fs: seq<Field>): (r: seq<string>)
    ensures |r| == |fs|
    ensures forall i :: 0 <= i < |fs| ==> r[i] == Render(fs[i])
  {
    if fs == [] then [] else [Render(fs[0])] + Rendered(fs[1..])
  }

  /** The line that writes the fields separated by commas. */
  function RenderLine(fs: seq<Field>): string
    requires |fs| >= 1
  {
    Join(Rendered(fs), ',')
  }

  /** The expected tokens: every field in order, except that an empty plain field gives
      none. */
  function FieldTokens(fs: seq<Field>): seq<string> {
    if fs == [] then []
    else (if Render(fs[0]) == [] then [] else [Render(fs[0])]) + FieldTokens(fs[1..])
  }

  /** No match starts at a comma. */
  lemma TokensSkipComma(s: string)
    requires s != [] && s[0] == ','
    ensures Tokens(s) == Tokens(s[1..])
  {
    assert MatchAt(s) == None;
  }

  /** A non-empty plain field followed by a comma or the end is matched whole. */
  lemma MatchPlain(t: string, rest: string)
    requires t != [] && '"' !in t && ',' !in t
    requires rest == [] || rest[0] == ','
    ensures MatchAt(t + rest) == Some(|t|)
  {
    var s := t + rest;
    assert s[0] == t[0];
    assert forall i :: 0 <= i < |t| ==> s[i] == t[i];
    assert s[|t|..] == rest;
    assert rest != [] ==> s[|t|] == rest[0];
    FieldEndsAtComma(rest);
  }

  /** A quoted field followed by a comma or the end is matched up to its closing quote. */
  lemma MatchQuoted(b: string, rest: string)
    requires '"' !in b && NoLineTerminator(b)
    requires rest == [] || rest[0] == ','
    ensures MatchAt(['"'] + b + ['"'] + rest) == Some(|b| + 2)
  {
    var s := ['"'] + b + ['"'] + rest;
    assert s[1..|b| + 1] == b;
    assert s[|b| + 2..] == rest;
    FieldEndsAtComma(rest);
    assert QuotedEndsAt(s, |b| + 2);
    var r := MatchAt(s);
    forall e | 2 <= e < |b| + 2 ensures !QuotedEndsAt(s, e) {
      assert s[e - 1] == b[e - 2];
    }
  }

  /** The tokens of one well-formed field followed by a comma or the end. */
  lemma {:induction false} TokensOfField(f: Field, rest: string)
    requires WellFormed(f)
    requires rest == [] || rest[0] == ','
    ensures Tokens(Render(f) + rest) == (if Render(f) == [] then [] else [Render(f)]) + Tokens(rest)
  {
    var s := Render(f) + rest;
    if Render(f) == [] {
      assert s == rest;
    } else {
      var n := |Render(f)|;
      match f
      case Plain(t) => MatchPlain(t, rest);
      case Quoted(b) => MatchQuoted(b, rest);
      assert s[..n] == Render(f) && s[n..] == rest;
    }
  }

  /** On a well-formed line the tokenizer yields the fields in order, minus the empty
      plain ones: an empty field gives no token, so the later values move one place
      to the left. */
  lemma {:induction false} TokensOfFields(fs: seq<Field>)
    requires |fs| >= 1
    requires forall i :: 0 <= i < |fs| ==> WellFormed(fs[i])
    ensures Tokens(RenderLine(fs)) == FieldTokens(fs)
  {
    var parts := Rendered(fs);
    if |fs| == 1 {
      TokensOfField(fs[0], []);
      assert Render(fs[0]) + [] == Render(fs[0]);
      assert FieldTokens(fs) == FieldTokens(fs[..1]);
    } else {
      assert parts[1..] == Rendered(fs[1..]);
      var tail := [','] + RenderLine(fs[1..]);
      assert RenderLine(fs) == Render(fs[0]) + tail;
      TokensOfField(fs[0], tail);
      TokensSkipComma(tail);
      assert tail[1..] == RenderLine(fs[1..]);
      TokensOfFields(fs[1..]);
    }
  }

  /** When no field is empty, the tokens are the rendered fields, one for one. */
  lemma {:induction false} FieldTokensOfNonEmpty(fs: seq<Field>)
    requires forall i :: 0 <= i < |fs| ==> Render(fs[i]) != []
    ensures FieldTokens(fs) == Rendered(fs)
  {
    if fs != [] {
      FieldTokensOfNonEmpty(fs[1..]);
      assert Rendered(fs) == [Render(fs[0])] + Rendered(fs[1..]);
    }
  }

  /** A field that can be written without quotes. */
  predicate IsPlainText(t: string) {
    '"' !in t && ',' !in t
  }

  /** A text is plain when none of its characters is a quote or a comma. */
  lemma PlainByCharacters(t: string)
    requires forall k :: 0 <= k < |t| ==> t[k] != '"' && t[k] != ','
    ensures IsPlainText(t)
  {
  }

  /** The pieces that are not empty, in order. */
  function WithoutEmpty(pieces: seq<string>): (r: seq<string>)
    ensures |r| <= |pieces|
  {
    if pieces == [] then []
    else (if pieces[0] == [] then [] else [pieces[0]]) + WithoutEmpty(pieces[1..])
  }

  lemma {:induction false} PlainFieldTokens(texts: seq<string>, fs: seq<Field>)
    requires |fs| == |texts|
    requires forall k :: 0 <= k < |fs| ==> fs[k] == Plain(texts[k])
    ensures FieldTokens(fs) == WithoutEmpty(texts)
  {
    if fs != [] {
      PlainFieldTokens(texts[1..], fs[1..]);
    }
  }

  /** A line of plain fields, `a,b,,c`, yields its non-empty fields as tokens. */
  lemma TokensOfPlainLine(texts: seq<string>)
    requires |texts| >= 1
    requires forall k :: 0 <= k < |texts| ==> IsPlainText(texts[k])
    ensures Tokens(Join(texts, ',')) == WithoutEmpty(texts)
  {
    var fs := seq(|texts|, k requires 0 <= k < |texts| => Plain(texts[k]));
    assert Rendered(fs) == texts;
    TokensOfFields(fs);
    PlainFieldTokens(texts, fs);
  }

  lemma {:induction false} WithoutEmptyAppend(a: seq<string>, b: seq<string>)
    ensures WithoutEmpty(a + b) == WithoutEmpty(a) + WithoutEmpty(b)
  {
    if a != [] {
      assert (a + b)[1..] == a[1..] + b;
      WithoutEmptyAppend(a[1..], b);
    } else {
      assert a + b == b;
    }
  }

  lemma {:induction false} WithoutEmptyKeepsAll(a: seq<string>)
    requires forall k :: 0 <= k < |a| ==> a[k] != []
    ensures WithoutEmpty(a) == a
  {
    if a != [] {
      WithoutEmptyKeepsAll(a[1..]);
    }
  }

  /** With exactly one empty piece, at `j`, dropping the empty ones drops just that one:
      every later piece moves one place to the left. */
  lemma OneEmptyPiece(pieces: seq<string>, j: nat)
    requires j < |pieces| && pieces[j] == []
    requires forall k :: 0 <= k < |pieces| && k != j ==> pieces[k] != []
    ensures WithoutEmpty(pieces) == pieces[..j] + pieces[j + 1..]
  {
    var before := pieces[..j];
    var after := pieces[j + 1..];
    var rest := [pieces[j]] + after;
    assert pieces == before + rest;
    WithoutEmptyAppend(before, rest);
    assert rest[1..] == after;
    assert WithoutEmpty(rest) == WithoutEmpty(after);
    assert forall k :: 0 <= k < |before| ==> before[k] == pieces[k];
    WithoutEmptyKeepsAll(before);
    assert forall k :: 0 <= k < |after| ==> after[k] == pieces[j + 1 + k];
    WithoutEmptyKeepsAll(after);
  }

  /** A line of plain fields with exactly one empty field, at `j`, yields every other
      field as a token: those after `j` move one place to the left. */
  lemma TokensPastEmptyField(texts: seq<string>, j: nat)
    requires j < |texts| && texts[j] == []
    requires forall k :: 0 <= k < |texts| ==> IsPlainText(texts[k])
    requires forall k :: 0 <= k < |texts| && k != j ==> texts[k] != []
    ensures Tokens(Join(texts, ',')) == texts[..j] + texts[j + 1..]
  {
    TokensOfPlainLine(texts);
    OneEmptyPiece(texts, j);
  }
}
