/** From the CSV text to `Link` records: App.tsx:35-53, with the record shape of
    types.ts:4-11 and the icon table of App.tsx:13-19. */
module Links {
  import opened Wrappers
  import opened Text
  import opened CsvTokens
  import opened IntParsing

  /** The glyphs of `iconComponents`. */
  datatype Icon = Github | Twitter | Linkedin | Globe | Mail

  /** A link record. `id` is `None` where `parseInt` gives `NaN`; `description` and `tags`
      are `None` where the record leaves them `undefined`. */
  datatype Link = Link(
    id: Option<int>,
    title: string,
    url: string,
    icon: Icon,
    description: Option<string>,
    tags: Option<seq<string>>)

  /** The key of each glyph in `iconComponents`. */
  function IconKey(icon: Icon): string {
    match icon
    case Github => "GithubIcon"
    case Twitter => "TwitterIcon"
    case Linkedin => "LinkedinIcon"
    case Globe => "GlobeIcon"
    case Mail => "MailIcon"
  }

  /** `iconComponents[name] || <GlobeIcon />`, reading only the table's own keys: the
      glyph whose key is `name`, and Globe for every other name or a missing column. */
  function IconFor(name: Option<string>): (icon: Icon)
    ensures forall g :: name == Some(IconKey(g)) ==> icon == g
    ensures (forall g :: name != Some(IconKey(g))) ==> icon == Globe
  {
    IconKeysDistinct();
    if name == Some(IconKey(Github)) then Github
    else if name == Some(IconKey(Twitter)) then Twitter
    else if name == Some(IconKey(Linkedin)) then Linkedin
    else if name == Some(IconKey(Mail)) then Mail
    else Globe
  }

  /** No two glyphs share a key (the keys even differ in length). */
  lemma IconKeysDistinct()
    ensures forall g, h :: IconKey(g) == IconKey(h) ==> g == h
  {
    forall g, h | IconKey(g) == IconKey(h) ensures g == h {
      assert |IconKey(g)| == |IconKey(h)|;
    }
  }

  /** What indexing the object literal `iconComponents` yields: a glyph, or one of the
      members every object literal inherits from `Object.prototype`. */
  datatype IconValue = Glyph(icon: Icon) | Inherited(member: string)

  /** The names of the members inherited from `Object.prototype`; all of them are truthy. */
  const ObjectPrototypeMembers: set<string> := {
    "constructor", "hasOwnProperty", "isPrototypeOf", "propertyIsEnumerable",
    "toLocaleString", "toString", "valueOf", "__proto__",
    "__defineGetter__", "__defineSetter__", "__lookupGetter__", "__lookupSetter__"
  }

  /** `iconComponents[entry.icon] || <GlobeIcon />` as written: an inherited member is
      truthy, so it passes the `||` and ends up as the link's icon. */
  function IconLookupAsWritten(name: Option<string>): (v: IconValue)
    ensures v.Inherited? <==> name.Some? && name.value in ObjectPrototypeMembers
    ensures v.Inherited? ==> v.member == name.value
    ensures v.Glyph? ==> v.icon == IconFor(name)
  {
    if name.Some? && name.value in ObjectPrototypeMembers then Inherited(name.value)
    else Glyph(IconFor(name))
  }

  /** An icon column holding `constructor` escapes the Globe fallback as written, while
      the own-key lookup gives Globe. */
  lemma InheritedIconName()
    ensures IconLookupAsWritten(Some("constructor")) == Inherited("constructor")
    ensures IconFor(Some("constructor")) == Globe
  {
  }

  /** The value stored for the header at `index`: the token at the same index with every
      `"` removed and trimmed, or `''` when the line has fewer tokens
      (`(values[index] || '').replace(/"/g, '').trim()`). */
  function FieldValue(values: seq<string>, index: nat): string {
    Trim(RemoveQuotes(if index < |values| then values[index] else ""))
  }

  /** A token without quotes is only trimmed. */
  lemma UnquotedFieldValue(values: seq<string>, index: nat)
    requires index < |values| && '"' !in values[index]
    ensures FieldValue(values, index) == Trim(values[index])
  {
  }

  /** A header past the last token gets `''`. */
  lemma MissingFieldValue(values: seq<string>, index: nat)
    requires index >= |values|
    ensures FieldValue(values, index) == ""
  {
  }

  /** Among the first `n` headers, the one at `i` occurs nowhere after `i`. */
  predicate IsLastBefore(headers: seq<string>, n: int, i: int)
    requires n <= |headers|
  {
    0 <= i < n && forall j :: i < j < n ==> headers[j] != headers[i]
  }

  /** The value stored for each of the first `n` headers. */
  function FieldValues(values: seq<string>, n: nat): (fields: seq<string>)
    ensures |fields| == n
  {
    seq(n, i requires 0 <= i < n => FieldValue(values, i))
  }

  /** The object that the `reduce` over the first `n` headers builds from the stored
      values `fields`: each header maps to its value, a later duplicate header overwriting
      an earlier one. */
  function EntryOf(headers: seq<string>, fields: seq<string>, n: nat): map<string, string>
    requires n <= |headers| && n <= |fields|
  {
    if n == 0 then map[]
    else EntryOf(headers, fields, n - 1)[headers[n - 1] := fields[n - 1]]
  }

  /** After the first `n` headers, every one of them is a key, and each holds the value at
      its last position among them. */
  lemma {:induction false} EntryOfValues(headers: seq<string>, fields: seq<string>, n: nat)
    requires n <= |headers| && n <= |fields|
    ensures forall i :: 0 <= i < n ==> headers[i] in EntryOf(headers, fields, n)
    ensures forall i :: IsLastBefore(headers, n, i) ==> EntryOf(headers, fields, n)[headers[i]] == fields[i]
  {
    if n > 0 {
      EntryOfValues(headers, fields, n - 1);
      forall i | IsLastBefore(headers, n, i) && i < n - 1
        ensures IsLastBefore(headers, n - 1, i)
      {
      }
    }
  }

  /** The object has no key beyond the first `n` headers. */
  lemma {:induction false} EntryOfKeys(headers: seq<string>, fields: seq<string>, n: nat)
    requires n <= |headers| && n <= |fields|
    ensures forall h :: h in EntryOf(headers, fields, n) ==> h in headers[..n]
  {
    if n > 0 {
      EntryOfKeys(headers, fields, n - 1);
      assert headers[..n] == headers[..n - 1] + [headers[n - 1]];
    }
  }

  /** The record the `reduce` builds for one line's tokens. */
  function Entry(headers: seq<string>, values: seq<string>): map<string, string> {
    EntryOf(headers, FieldValues(values, |headers|), |headers|)
  }

  /** The record has exactly the columns of the header row. */
  lemma EntryKeys(headers: seq<string>, values: seq<string>)
    ensures forall h :: h in Entry(headers, values) <==> h in headers
  {
    var fields := FieldValues(values, |headers|);
    EntryOfKeys(headers, fields, |headers|);
    EntryOfValues(headers, fields, |headers|);
    assert headers[..|headers|] == headers;
  }

  /** One step of the `reduce`: the next header gets its field value. */
  lemma EntryStep(headers: seq<string>, values: seq<string>, index: nat)
    requires index < |headers|
    ensures var fields := FieldValues(values, |headers|);
      EntryOf(headers, fields, index + 1) == EntryOf(headers, fields, index)[headers[index] := FieldValue(values, index)]
  {
  }

  /** The `reduce` itself, filling the accumulator object header by header. */
  method BuildEntry(headers: seq<string>, values: seq<string>) returns (entry: map<string, string>)
    ensures entry == Entry(headers, values)
  {
    ghost var fields := FieldValues(values, |headers|);
    entry := map[];
    var index := 0;
    while index < |headers|
      invariant index <= |headers|
      invariant entry == EntryOf(headers, fields, index)
    {
      var value := FieldValue(values, index);
      EntryStep(headers, values, index);
      entry := entry[headers[index] := value];
      index := index + 1;
    }
  }

  /** `entry[name]`: `None` is `undefined`, for a column the header row does not have. */
  function Column(entry: map<string, string>, name: string): Option<string> {
    if name in entry then Some(entry[name]) else None
  }

  /** A column's value read by position: the field value at the last index of `name` in
      the header row. */
  lemma ColumnByIndex(headers: seq<string>, values: seq<string>, name: string, i: nat)
    requires IsLastBefore(headers, |headers|, i) && headers[i] == name
    ensures Column(Entry(headers, values), name) == Some(FieldValue(values, i))
  {
    EntryOfValues(headers, FieldValues(values, |headers|), |headers|);
  }

  /** A column missing from the header row reads as `undefined`. */
  lemma ColumnMissing(headers: seq<string>, values: seq<string>, name: string)
    requires name !in headers
    ensures Column(Entry(headers, values), name) == None
  {
    EntryKeys(headers, values);
  }

  /** `entry.description || undefined`: an empty or missing description is absent. */
  function DescriptionOf(field: Option<string>): (d: Option<string>)
    ensures d.Some? <==> field.Some? && field.value != ""
    ensures d.Some? ==> d == field
  {
    if field.Some? && field.value != "" then field else None
  }

  function TrimAll(parts: seq<string>): (r: seq<string>)
    ensures |r| == |parts|
    ensures forall i :: 0 <= i < |parts| ==> r[i] == Trim(parts[i])
  {
    if parts == [] then [] else [Trim(parts[0])] + TrimAll(parts[1..])
  }

  /** Trimming adds no character: pieces without `c` stay without it. */
  lemma TrimAllKeepsAbsent(pieces: seq<string>, c: char)
    requires forall i :: 0 <= i < |pieces| ==> c !in pieces[i]
    ensures forall i :: 0 <= i < |pieces| ==> c !in TrimAll(pieces)[i]
  {
    forall i | 0 <= i < |pieces| ensures c !in TrimAll(pieces)[i] {
      TrimKeepsAbsent(pieces[i], c);
    }
  }

  /** A tag as the parser leaves it: no `;` and no whitespace at either end. */
  predicate IsTrimmedTag(t: string) {
    ';' !in t && NoOuterWhitespace(t)
  }

  /** `field` is the `pieces` written with `;` between them, none holding a `;`, and tag
      `i` is piece `i` trimmed. */
  predicate IsTagSplit(field: string, pieces: seq<string>, tags: seq<string>) {
    && |pieces| == |tags| >= 1
    && Join(pieces, ';') == field
    && forall i :: 0 <= i < |pieces| ==> ';' !in pieces[i] && tags[i] == Trim(pieces[i])
  }

  /** The tags of a split: one more than there are `;`, each trimmed and without `;`,
      each the trimmed piece at its position. */
  lemma TagPieces(field: string)
    ensures var pieces := Split(field, ';');
      var tags := TrimAll(pieces);
      && |tags| == Occurrences(field, ';') + 1
      && (forall i :: 0 <= i < |tags| ==> IsTrimmedTag(tags[i]))
      && IsTagSplit(field, pieces, tags)
  {
    var pieces := Split(field, ';');
    var tags := TrimAll(pieces);
    SplitCount(field, ';');
    JoinSplit(field, ';');
    TrimAllKeepsAbsent(pieces, ';');
    forall i | 0 <= i < |tags| ensures NoOuterWhitespace(tags[i]) {
      TrimIsSlice(pieces[i]);
    }
  }

  /** `entry.tags ? entry.tags.split(';').map(t => t.trim()) : undefined`. */
  function TagsOf(field: Option<string>): (tags: Option<seq<string>>)
    ensures tags.Some? <==> field.Some? && field.value != ""
    ensures tags.Some? ==> |tags.value| == Occurrences(field.value, ';') + 1
    ensures tags.Some? ==> forall i :: 0 <= i < |tags.value| ==> IsTrimmedTag(tags.value[i])
    ensures tags.Some? ==> exists pieces :: IsTagSplit(field.value, pieces, tags.value)
  {
    if field.Some? && field.value != "" then
      TagPieces(field.value);
      Some(TrimAll(Split(field.value, ';')))
    else None
  }

  /** Tags written with `;` between them, whatever whitespace surrounds each, are parsed
      back to those tags trimmed, in order. */
  lemma TagsOfJoin(pieces: seq<string>)
    requires |pieces| >= 1
    requires forall i :: 0 <= i < |pieces| ==> ';' !in pieces[i]
    requires Join(pieces, ';') != ""
    ensures TagsOf(Some(Join(pieces, ';'))) == Some(TrimAll(pieces))
  {
    SplitJoin(pieces, ';');
  }

  /** Writing trimmed tags with `;` between them and parsing the result gives the tags
      back, in order. */
  lemma TagsRoundTrip(tags: seq<string>)
    requires |tags| >= 1
    requires forall i :: 0 <= i < |tags| ==> IsTrimmedTag(tags[i])
    requires Join(tags, ';') != ""
    ensures TagsOf(Some(Join(tags, ';'))) == Some(tags)
  {
    SplitJoin(tags, ';');
    forall i | 0 <= i < |tags| ensures Trim(tags[i]) == tags[i] {
      TrimOfTrimmed(tags[i]);
    }
    assert TrimAll(Split(Join(tags, ';'), ';')) == tags;
  }

  /** `csvText.trim().split('\n')`. */
  function Lines(text: string): (lines: seq<string>)
    ensures |lines| == Occurrences(Trim(text), '\n') + 1
  {
    SplitCount(Trim(text), '\n');
    Split(Trim(text), '\n')
  }

  /** The header row: the first line split on `,`, then `headers.map(h => h.trim())`. */
  function Headers(text: string): seq<string> {
    TrimAll(Split(Lines(text)[0], ','))
  }

  /** One data line turned into a `Link` (App.tsx:38-53): the fields are read from the
      record that the `reduce` builds over the line's tokens. */
  function BuildLink(headers: seq<string>, line: string): (link: Link)
    requires "title" in headers && "url" in headers
  {
    var entry := Entry(headers, Tokens(line));
    EntryKeys(headers, Tokens(line));
    Link(
      id := match Column(entry, "id") case Some(v) => ParseInt(v) case None => None,
      title := entry["title"],
      url := entry["url"],
      icon := IconFor(Column(entry, "icon")),
      description := DescriptionOf(Column(entry, "description")),
      tags := TagsOf(Column(entry, "tags")))
  }

  /** The link reads each column at the last position of its name in the header row:
      the field value there, converted as the column requires. */
  lemma LinkByPosition(headers: seq<string>, line: string, i: nat)
    requires "title" in headers && "url" in headers
    requires IsLastBefore(headers, |headers|, i)
    ensures var v := FieldValue(Tokens(line), i);
      var link := BuildLink(headers, line);
      && (headers[i] == "id" ==> link.id == ParseInt(v))
      && (headers[i] == "title" ==> link.title == v)
      && (headers[i] == "url" ==> link.url == v)
      && (headers[i] == "icon" ==> link.icon == IconFor(Some(v)))
      && (headers[i] == "description" ==> link.description == DescriptionOf(Some(v)))
      && (headers[i] == "tags" ==> link.tags == TagsOf(Some(v)))
  {
    ColumnByIndex(headers, Tokens(line), headers[i], i);
  }

  /** A column the header row lacks gives the fallback: no id, the Globe icon, no
      description, no tags. */
  lemma LinkMissingColumns(headers: seq<string>, line: string)
    requires "title" in headers && "url" in headers
    ensures var link := BuildLink(headers, line);
      && ("id" !in headers ==> link.id == None)
      && ("icon" !in headers ==> link.icon == Globe)
      && ("description" !in headers ==> link.description == None)
      && ("tags" !in headers ==> link.tags == None)
  {
    var values := Tokens(line);
    if "id" !in headers {
      ColumnMissing(headers, values, "id");
    }
    if "icon" !in headers {
      ColumnMissing(headers, values, "icon");
    }
    if "description" !in headers {
      ColumnMissing(headers, values, "description");
    }
    if "tags" !in headers {
      ColumnMissing(headers, values, "tags");
    }
  }

  /** On a line that writes one non-empty well-formed field per header, each column holds
      its own field: the plain text, or the body between the quotes, trimmed. */
  lemma ColumnsOfFields(headers: seq<string>, fs: seq<Field>, i: nat)
    requires |fs| == |headers| >= 1
    requires forall k :: 0 <= k < |fs| ==> WellFormed(fs[k]) && Render(fs[k]) != []
    requires IsLastBefore(headers, |headers|, i)
    ensures Column(Entry(headers, Tokens(RenderLine(fs))), headers[i]) == Some(Trim(Content(fs[i])))
  {
    var values := Tokens(RenderLine(fs));
    TokensOfFields(fs);
    FieldTokensOfNonEmpty(fs);
    assert values[i] == Render(fs[i]);
    RemoveQuotesOfRender(fs[i]);
    ColumnByIndex(headers, values, headers[i], i);
  }

  /** The six columns of the sample file. */
  const SampleHeaders: seq<string> := ["id", "title", "url", "icon", "description", "tags"]

  /** The sample header names are pairwise different, so each is the last of its name. */
  lemma SampleHeadersDistinct()
    ensures forall i :: 0 <= i < 6 ==> IsLastBefore(SampleHeaders, 6, i)
  {
    var h := SampleHeaders;
    forall i, j | 0 <= i < j < 6 ensures h[j] != h[i] {
      // "id" and "icon", "title" and "tags" first differ at their second letter.
      DifferAt(h[i], h[j], if (i == 0 && j == 3) || (i == 1 && j == 5) then 1 else 0);
    }
  }

  /** With the sample header row, each column reads the token at its own position. */
  lemma SampleColumns(line: string)
    ensures var values := Tokens(line);
      BuildLink(SampleHeaders, line) == Link(
        ParseInt(FieldValue(values, 0)),
        FieldValue(values, 1),
        FieldValue(values, 2),
        IconFor(Some(FieldValue(values, 3))),
        DescriptionOf(Some(FieldValue(values, 4))),
        TagsOf(Some(FieldValue(values, 5))))
  {
    var h := SampleHeaders;
    SampleHeadersDistinct();
    assert h[1] == "title" && h[2] == "url";
    LinkByPosition(h, line, 0);
    LinkByPosition(h, line, 1);
    LinkByPosition(h, line, 2);
    LinkByPosition(h, line, 3);
    LinkByPosition(h, line, 4);
    LinkByPosition(h, line, 5);
  }

  /** Two strings that differ at some position are different. */
  lemma DifferAt(a: string, b: string, k: nat)
    requires k < |a| && k < |b| && a[k] != b[k]
    ensures a != b
  {
  }

  /** A token without quotes or surrounding whitespace is read as it stands. */
  predicate IsPlainValue(t: string) {
    '"' !in t && NoOuterWhitespace(t)
  }

  /** A text is plain when none of its characters is a quote and it neither starts nor
      ends with whitespace. */
  lemma PlainValueByCharacters(t: string)
    requires forall k :: 0 <= k < |t| ==> t[k] != '"'
    requires NoOuterWhitespace(t)
    ensures IsPlainValue(t)
  {
  }

  lemma PlainValues(values: seq<string>)
    requires forall k :: 0 <= k < |values| ==> IsPlainValue(values[k])
    ensures forall k :: 0 <= k < |values| ==> FieldValue(values, k) == values[k]
  {
    forall k | 0 <= k < |values| ensures FieldValue(values, k) == values[k] {
      TrimOfTrimmed(values[k]);
    }
  }

  /** Past the removed element `j`, position `i` holds the element after it. */
  lemma SkipOne<T>(xs: seq<T>, j: nat, i: nat)
    requires j <= i && i + 1 < |xs|
    ensures (xs[..j] + xs[j + 1..])[i] == xs[i + 1]
  {
  }

  /** On a line of plain fields where only field `j` is empty, the columns before `j` read
      their own field and every column from `j` on reads the field one place to its right
      (the last column reading `''`). */
  lemma ValuesShiftPastEmptyField(texts: seq<string>, j: nat, i: nat)
    requires j < |texts| && texts[j] == []
    requires forall k :: 0 <= k < |texts| ==> IsPlainText(texts[k])
    requires forall k :: 0 <= k < |texts| && k != j ==> texts[k] != []
    requires i < |texts|
    ensures FieldValue(Tokens(Join(texts, ',')), i) ==
      if i < j then Trim(texts[i])
      else if i + 1 < |texts| then Trim(texts[i + 1])
      else ""
  {
    var tokens := Tokens(Join(texts, ','));
    TokensPastEmptyField(texts, j);
    if i < j {
      assert tokens[i] == texts[i];
      UnquotedFieldValue(tokens, i);
    } else if i + 1 < |texts| {
      SkipOne(texts, j, i);
      assert IsPlainText(texts[i + 1]);
      UnquotedFieldValue(tokens, i);
    } else {
      MissingFieldValue(tokens, i);
    }
  }

  lemma ParseTwo()
    ensures ParseInt("2") == Some(2)
  {
    ParseIntOfDecimal(2, "");
    assert IntToDecimal(2) == "2";
  }

  lemma ParseThree()
    ensures ParseInt("3") == Some(3)
  {
    ParseIntOfDecimal(3, "");
    assert IntToDecimal(3) == "3";
  }

  lemma SampleTagPieces(tags: seq<string>)
    requires tags == ["work", " personal"]
    ensures Split(Join(tags, ';'), ';') == tags
  {
    assert ';' !in tags[0] && ';' !in tags[1];
    SplitJoin(tags, ';');
  }

  lemma SampleTagSplit(field: string)
    requires field == "work; personal"
    ensures Split(field, ';') == ["work", " personal"]
  {
    var tags := ["work", " personal"];
    assert Join(tags, ';') == field;
    SampleTagPieces(tags);
  }

  /** Two tags, the second written after a whitespace character, trim to the bare tags. */
  lemma TrimTwoTags(w: string, p: string, c: char)
    requires NoOuterWhitespace(w) && NoOuterWhitespace(p)
    requires IsWhitespace(c)
    ensures TrimAll([w, [c] + p]) == [w, p]
  {
    TrimOfTrimmed(w);
    TrimOfTrimmed(p);
    TrimPastLeadingSpace(c, p);
  }

  lemma SampleTagTrim(pieces: seq<string>)
    requires pieces == ["work", " personal"]
    ensures TrimAll(pieces) == ["work", "personal"]
  {
    var p := "personal";
    assert !IsWhitespace(p[0]) && !IsWhitespace(p[|p| - 1]);
    assert pieces[1] == [' '] + p;
    assert pieces == [pieces[0], pieces[1]];
    TrimTwoTags("work", p, ' ');
  }

  lemma SampleTags()
    ensures TagsOf(Some("work; personal")) == Some(["work", "personal"])
  {
    SampleTagSplit("work; personal");
    SampleTagTrim(["work", " personal"]);
  }

  lemma FullRowTexts(texts: seq<string>)
    requires texts == ["2", "Mail", "mailto:me@example.com", "MailIcon", "Contact me", "work; personal"]
    ensures forall k :: 0 <= k < |texts| ==> IsPlainText(texts[k]) && texts[k] != []
  {
    PlainByCharacters(texts[0]);
    PlainByCharacters(texts[1]);
    PlainByCharacters(texts[2]);
    PlainByCharacters(texts[3]);
    PlainByCharacters(texts[4]);
    PlainByCharacters(texts[5]);
  }

  lemma FullRowTokens(texts: seq<string>)
    requires texts == ["2", "Mail", "mailto:me@example.com", "MailIcon", "Contact me", "work; personal"]
    ensures Tokens(Join(texts, ',')) == texts
  {
    FullRowTexts(texts);
    TokensOfPlainLine(texts);
    WithoutEmptyKeepsAll(texts);
  }

  lemma FullRowValues(values: seq<string>)
    requires values == ["2", "Mail", "mailto:me@example.com", "MailIcon", "Contact me", "work; personal"]
    ensures FieldValue(values, 0) == "2" && FieldValue(values, 1) == "Mail"
    ensures FieldValue(values, 2) == "mailto:me@example.com" && FieldValue(values, 3) == "MailIcon"
    ensures FieldValue(values, 4) == "Contact me" && FieldValue(values, 5) == "work; personal"
  {
    PlainValueByCharacters(values[0]);
    PlainValueByCharacters(values[1]);
    PlainValueByCharacters(values[2]);
    PlainValueByCharacters(values[3]);
    PlainValueByCharacters(values[4]);
    PlainValueByCharacters(values[5]);
    PlainValues(values);
  }

  lemma MailIconIsMail()
    ensures IconFor(Some("MailIcon")) == Mail
  {
    assert Some("MailIcon") == Some(IconKey(Mail));
  }

  /** A full row: every column is read, the tags are split and trimmed. */
  lemma FullRow(texts: seq<string>)
    requires texts == ["2", "Mail", "mailto:me@example.com", "MailIcon", "Contact me", "work; personal"]
    ensures BuildLink(SampleHeaders, Join(texts, ','))
      == Link(Some(2), "Mail", "mailto:me@example.com", Mail, Some("Contact me"), Some(["work", "personal"]))
  {
    FullRowTokens(texts);
    FullRowValues(texts);
    ParseTwo();
    MailIconIsMail();
    SampleTags();
    SampleColumns(Join(texts, ','));
  }

  lemma ShiftedRowPieces(texts: seq<string>, tokens: seq<string>)
    requires texts == ["3", "Blog", "https://blog.example", "", "Notes", "misc"]
    requires tokens == ["3", "Blog", "https://blog.example", "Notes", "misc"]
    ensures texts[..3] + texts[4..] == tokens
  {
  }

  lemma ShiftedRowTokens(texts: seq<string>, tokens: seq<string>)
    requires texts == ["3", "Blog", "https://blog.example", "", "Notes", "misc"]
    requires tokens == ["3", "Blog", "https://blog.example", "Notes", "misc"]
    ensures Tokens(Join(texts, ',')) == tokens
  {
    PlainByCharacters(texts[0]);
    PlainByCharacters(texts[1]);
    PlainByCharacters(texts[2]);
    PlainByCharacters(texts[3]);
    PlainByCharacters(texts[4]);
    PlainByCharacters(texts[5]);
    TokensPastEmptyField(texts, 3);
    ShiftedRowPieces(texts, tokens);
  }

  lemma ShiftedRowValues(values: seq<string>)
    requires values == ["3", "Blog", "https://blog.example", "Notes", "misc"]
    ensures FieldValue(values, 0) == "3" && FieldValue(values, 1) == "Blog"
    ensures FieldValue(values, 2) == "https://blog.example" && FieldValue(values, 3) == "Notes"
    ensures FieldValue(values, 4) == "misc" && FieldValue(values, 5) == ""
  {
    PlainValueByCharacters(values[0]);
    PlainValueByCharacters(values[1]);
    PlainValueByCharacters(values[2]);
    PlainValueByCharacters(values[3]);
    PlainValueByCharacters(values[4]);
    PlainValues(values);
  }

  lemma NotesIsNoIcon()
    ensures IconFor(Some("Notes")) == Globe
  {
    assert "Notes" != IconKey(Github) && "Notes" != IconKey(Twitter) && "Notes" != IconKey(Linkedin);
    assert "Notes" != IconKey(Globe) && "Notes" != IconKey(Mail);
  }

  /** A row with an empty icon field: the description moves into `icon` (an unknown
      name, hence Globe), the tags into `description`, and `tags` reads `''`. */
  lemma EmptyFieldShifts(texts: seq<string>)
    requires texts == ["3", "Blog", "https://blog.example", "", "Notes", "misc"]
    ensures BuildLink(SampleHeaders, Join(texts, ','))
      == Link(Some(3), "Blog", "https://blog.example", Globe, Some("misc"), None)
  {
    var tokens := ["3", "Blog", "https://blog.example", "Notes", "misc"];
    ShiftedRowTokens(texts, tokens);
    ShiftedRowValues(tokens);
    ParseThree();
    NotesIsNoIcon();
    SampleColumns(Join(texts, ','));
  }

  /** `lines.slice(1).map(...)`: one link per data line, in order. */
  function BuildLinks(headers: seq<string>, rows: seq<string>): (links: seq<Link>)
    requires "title" in headers && "url" in headers
    ensures |links| == |rows|
    ensures forall i :: 0 <= i < |rows| ==> links[i] == BuildLink(headers, rows[i])
  {
    if rows == [] then [] else [BuildLink(headers, rows[0])] + BuildLinks(headers, rows[1..])
  }

  /** The whole parse: one link for every line after the header row, that is one for
      every line break left after trimming the text, in the order of the lines. */
  function ParseCsv(text: string): (links: seq<Link>)
    requires "title" in Headers(text) && "url" in Headers(text)
    ensures |links| == Occurrences(Trim(text), '\n')
    ensures forall i :: 0 <= i < |links| ==> links[i] == BuildLink(Headers(text), Lines(text)[i + 1])
  {
    BuildLinks(Headers(text), Lines(text)[1..])
  }
}
