/** The `Option` type: `None` stands for JavaScript's `undefined` (or `NaN` for a number). */
module Wrappers {
  datatype Option<T> = None | Some(value: T)
}

/** The JavaScript string operations the link pipeline uses: `trim`, `split` on one
    character, `replace(/"/g, '')`, `toLowerCase` and `includes`. */
module Text {

  /** JavaScript's WhiteSpace and LineTerminator characters: what `String.prototype.trim`
      removes, what `parseInt` skips and what the regex class `\s` matches. */
  predicate IsWhitespace(c: char) {
    || c == '\t' || c == '\n' || c == '\U{B}' || c == '\U{C}' || c == '\r' || c == ' '
    || c == '\U{A0}' || c == '\U{1680}' || ('\U{2000}' <= c <= '\U{200A}')
    || c == '\U{2028}' || c == '\U{2029}' || c == '\U{202F}' || c == '\U{205F}'
    || c == '\U{3000}' || c == '\U{FEFF}'
  }

  /** The line terminators: the characters the regex `.` does not match. */
  predicate IsLineTerminator(c: char) {
    c == '\n' || c == '\r' || c == '\U{2028}' || c == '\U{2029}'
  }

  /** The number of whitespace characters at the start of `s`. */
  function LeadingWhitespace(s: string): (n: nat)
    ensures n <= |s|
    ensures forall k :: 0 <= k < n ==> IsWhitespace(s[k])
    ensures n == |s| || !IsWhitespace(s[n])
  {
    if s != [] && IsWhitespace(s[0]) then 1 + LeadingWhitespace(s[1..]) else 0
  }

  /** The number of whitespace characters at the end of `s`. */
  function TrailingWhitespace(s: string): (n: nat)
    ensures n <= |s|
    ensures forall k :: |s| - n <= k < |s| ==> IsWhitespace(s[k])
    ensures n == |s| || !IsWhitespace(s[|s| - 1 - n])
  {
    if s != [] && IsWhitespace(s[|s| - 1]) then 1 + TrailingWhitespace(s[..|s| - 1]) else 0
  }

  /** `s.trimStart()`. */
  function TrimStart(s: string): string {
    s[LeadingWhitespace(s)..]
  }

  /** `s.trimEnd()`. */
  function TrimEnd(s: string): string {
    s[..|s| - TrailingWhitespace(s)]
  }

  /** `s.trim()`. */
  function Trim(s: string): string {
    TrimEnd(TrimStart(s))
  }

  /** `s` neither starts nor ends with whitespace. */
  predicate NoOuterWhitespace(s: string) {
    s == [] || (!IsWhitespace(s[0]) && !IsWhitespace(s[|s| - 1]))
  }

  /** `s.trim()` is the slice of `s` between its leading and its trailing whitespace,
      and it neither starts nor ends with whitespace. */
  lemma TrimIsSlice(s: string)
    ensures var lead := LeadingWhitespace(s);
      && lead + |Trim(s)| <= |s|
      && Trim(s) == s[lead..lead + |Trim(s)|]
      && (forall k :: lead + |Trim(s)| <= k < |s| ==> IsWhitespace(s[k]))
    ensures NoOuterWhitespace(Trim(s))
  {
    var t := TrimStart(s);
    var lead := LeadingWhitespace(s);
    var trail := TrailingWhitespace(t);
    assert forall k :: lead + |t| - trail <= k < |s| ==> s[k] == t[k - lead];
    assert Trim(s) == s[lead..lead + |t| - trail];
    if Trim(s) != [] {
      assert Trim(s)[0] == s[lead];
    }
  }

  /** A string without whitespace at either end is its own trim. */
  lemma TrimOfTrimmed(s: string)
    requires NoOuterWhitespace(s)
    ensures Trim(s) == s
  {
  }

  /** A whitespace character in front does not change the trim. */
  lemma TrimPastLeadingSpace(c: char, s: string)
    requires IsWhitespace(c)
    ensures Trim([c] + s) == Trim(s)
  {
    assert ([c] + s)[1..] == s;
  }

  /** A character that `s` lacks, its trim lacks too. */
  lemma TrimKeepsAbsent(s: string, c: char)
    requires c !in s
    ensures c !in Trim(s)
  {
    TrimIsSlice(s);
  }

  /** `s.split(sep)` for a one-character separator: the pieces between separators. */
  function Split(s: string, sep: char): (r: seq<string>)
    ensures |r| >= 1
    ensures forall i :: 0 <= i < |r| ==> sep !in r[i]
  {
    if s == [] then [[]]
    else
      var rest := Split(s[1..], sep);
      if s[0] == sep then [[]] + rest else [[s[0]] + rest[0]] + rest[1..]
  }

  /** `parts.join(sep)`: the inverse of `Split`. */
  function Join(parts: seq<string>, sep: char): string
    requires |parts| >= 1
  {
    if |parts| == 1 then parts[0] else parts[0] + [sep] + Join(parts[1..], sep)
  }

  /** Number of occurrences of `c` in `s`. */
  function Occurrences(s: string, c: char): nat {
    if s == [] then 0 else (if s[0] == c then 1 else 0) + Occurrences(s[1..], c)
  }

  /** Joining the pieces of a split gives back the original text. */
  lemma {:induction false} JoinSplit(s: string, sep: char)
    ensures Join(Split(s, sep), sep) == s
  {
    if s != [] {
      var rest := Split(s[1..], sep);
      JoinSplit(s[1..], sep);
      if s[0] == sep {
        assert Split(s, sep)[1..] == rest;
      } else if |rest| == 1 {
      } else {
        assert Split(s, sep)[1..] == rest[1..];
        assert Join(rest, sep) == rest[0] + [sep] + Join(rest[1..], sep);
      }
    }
  }

  /** Splitting a join of separator-free pieces gives back the pieces. */
  lemma {:induction false} SplitJoin(parts: seq<string>, sep: char)
    requires |parts| >= 1
    requires forall i :: 0 <= i < |parts| ==> sep !in parts[i]
    ensures Split(Join(parts, sep), sep) == parts
  {
    if |parts| == 1 {
      SplitPiece(parts[0], [], sep);
      assert parts[0] + [] == parts[0];
    } else {
      SplitJoin(parts[1..], sep);
      SplitPiece(parts[0], [sep] + Join(parts[1..], sep), sep);
      assert parts[0] + [sep] + Join(parts[1..], sep) == parts[0] + ([sep] + Join(parts[1..], sep));
      var tail := [sep] + Join(parts[1..], sep);
      assert tail[1..] == Join(parts[1..], sep);
      assert Split(tail, sep) == [[]] + parts[1..];
      assert parts[0] + [] == parts[0];
      assert [parts[0]] + parts[1..] == parts;
    }
  }

  /** A separator-free prefix is glued onto the first piece of what follows it. */
  lemma {:induction false} SplitPiece(p: string, rest: string, sep: char)
    requires sep !in p
    ensures Split(p + rest, sep) == [p + Split(rest, sep)[0]] + Split(rest, sep)[1..]
  {
    if p != [] {
      assert (p + rest)[1..] == p[1..] + rest;
      SplitPiece(p[1..], rest, sep);
      assert [p[0]] + (p[1..] + Split(rest, sep)[0]) == p + Split(rest, sep)[0];
    } else {
      var r := Split(rest, sep);
      assert p + rest == rest && p + r[0] == r[0];
      assert [r[0]] + r[1..] == r;
    }
  }

  /** A split yields one piece more than there are separators. */
  lemma {:induction false} SplitCount(s: string, sep: char)
    ensures |Split(s, sep)| == Occurrences(s, sep) + 1
  {
    if s != [] {
      SplitCount(s[1..], sep);
    }
  }

  /** `s.replace(/"/g, '')`: `s` with every double quote removed, order kept. */
  function RemoveQuotes(s: string): (r: string)
    ensures '"' !in r
    ensures |r| == |s| - Occurrences(s, '"')
    ensures forall c :: c != '"' ==> (c in r <==> c in s)
    ensures '"' !in s ==> r == s
  {
    if s == [] then []
    else if s[0] == '"' then RemoveQuotes(s[1..])
    else [s[0]] + RemoveQuotes(s[1..])
  }

  /** Removing the quotes of a concatenation removes those of each part. */
  lemma {:induction false} RemoveQuotesAppend(a: string, b: string)
    ensures RemoveQuotes(a + b) == RemoveQuotes(a) + RemoveQuotes(b)
  {
    if a != [] {
      assert (a + b)[1..] == a[1..] + b;
      RemoveQuotesAppend(a[1..], b);
    } else {
      assert a + b == b;
    }
  }

  /** A body written between quotes, holding none itself, comes back unchanged. */
  lemma RemoveQuotesOfQuoted(body: string)
    requires '"' !in body
    ensures RemoveQuotes(['"'] + body + ['"']) == body
  {
    RemoveQuotesAppend(['"'] + body, ['"']);
    RemoveQuotesAppend(['"'], body);
  }

  /** The lowercase letter for an ASCII capital, any other character unchanged. */
  function LowerChar(c: char): (d: char)
    ensures 'A' <= c <= 'Z' ==> d as int == c as int + 32
    ensures !('A' <= c <= 'Z') ==> d == c
    ensures !('A' <= d <= 'Z')
  {
    if 'A' <= c <= 'Z' then (c as int + 32) as char else c
  }

  /** `s.toLowerCase()`, restricted to ASCII letters. */
  function Lower(s: string): (r: string)
    ensures |r| == |s|
    ensures forall i :: 0 <= i < |s| ==> r[i] == LowerChar(s[i])
  {
    if s == [] then [] else [LowerChar(s[0])] + Lower(s[1..])
  }

  /** `needle` occurs in `hay` starting at index `i`. */
  predicate OccursAt(hay: string, needle: string, i: int) {
    0 <= i <= |hay| - |needle| && hay[i..i + |needle|] == needle
  }

  /** `hay.includes(needle)`: tries each start position from the left. */
  function Includes(hay: string, needle: string): (b: bool)
    ensures b <==> exists i :: OccursAt(hay, needle, i)
  {
    if needle <= hay then
      assert OccursAt(hay, needle, 0);
      true
    else if hay == [] then
      false
    else
      ShiftOccurrence(hay, needle);
      Includes(hay[1..], needle)
  }

  /** When `needle` is not a prefix of `hay`, it occurs in `hay` iff it occurs in `hay[1..]`. */
  lemma ShiftOccurrence(hay: string, needle: string)
    requires hay != [] && !(needle <= hay)
    ensures (exists i :: OccursAt(hay, needle, i)) <==> (exists j :: OccursAt(hay[1..], needle, j))
  {
    if j :| OccursAt(hay[1..], needle, j) {
      assert OccursAt(hay, needle, j + 1);
    }
    if i :| OccursAt(hay, needle, i) {
      assert OccursAt(hay[1..], needle, i - 1);
    }
  }

  /** The empty string occurs in every string. */
  lemma IncludesEmpty(hay: string)
    ensures Includes(hay, [])
  {
    assert OccursAt(hay, [], 0);
  }
}
