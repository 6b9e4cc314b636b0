/*
 * The ratings file: one line per rated film, comma-separated, a date in
 * field 0, the title in field 1 and the rating as the first whitespace-
 * delimited word of field 4. A title holding one comma is written in double
 * quotes and so spans fields 1 and 2, which moves the rating to field 5.
 * Only lines that start with '2' (a date) are read; the header is skipped.
 */
module Ratings {
  import opened Seqs
  import opened Movies

  datatype Option<T> = None | Some(value: T)

  /** What one line contributes: nothing, a rating for a title, or an index
      error that ends the reading of the file. */
  datatype ParsedLine = Ignored | Rated(title: Title, rating: string) | Malformed

  /** The characters `str.split()` treats as whitespace. */
  predicate IsSpace(c: char) {
    || c == ' ' || c == '\t' || c == '\n' || c == '\r' || c == '\U{0B}' || c == '\U{0C}'
    || ('\U{1C}' <= c <= '\U{1F}') || c == '\U{85}' || c == '\U{A0}' || c == '\U{1680}'
    || ('\U{2000}' <= c <= '\U{200A}') || c == '\U{2028}' || c == '\U{2029}' || c == '\U{202F}'
    || c == '\U{205F}' || c == '\U{3000}'
  }

  predicate NoSpace(s: string) {
    forall i :: 0 <= i < |s| ==> !IsSpace(s[i])
  }

  predicate AllSpace(s: string) {
    forall i :: 0 <= i < |s| ==> IsSpace(s[i])
  }

  /** `s.split(sep)`: the pieces between the occurrences of `sep`, as many as
      there are occurrences plus one. */
  function SplitOn(s: string, sep: char): (fields: seq<string>)
    ensures |fields| >= 1
    ensures forall i :: 0 <= i < |fields| ==> sep !in fields[i]
    ensures sep in s <==> |fields| >= 2
    decreases |s|
  {
    if sep !in s then [s]
    else
      var i := IndexOf(s, sep);
      [s[..i]] + SplitOn(s[i + 1..], sep)
  }

  /** `sep.join(fields)`. */
  function Join(fields: seq<string>, sep: char): string
    requires |fields| >= 1
  {
    if |fields| == 1 then fields[0] else fields[0] + [sep] + Join(fields[1..], sep)
  }

  /** Splitting at the first separator: the piece before it comes first. */
  lemma SplitOnStep(a: string, sep: char, b: string)
    requires sep !in a
    ensures SplitOn(a + [sep] + b, sep) == [a] + SplitOn(b, sep)
  {
    var s := a + [sep] + b;
    IndexOfAfter(a, sep, b);
    assert s[..|a|] == a;
    assert s[|a| + 1..] == b;
  }

  /** Splitting undoes joining when no piece holds the separator. */
  lemma {:induction false} SplitJoin(fields: seq<string>, sep: char)
    requires |fields| >= 1
    requires forall i :: 0 <= i < |fields| ==> sep !in fields[i]
    ensures SplitOn(Join(fields, sep), sep) == fields
  {
    if |fields| > 1 {
      var rest := fields[1..];
      assert forall i :: 0 <= i < |rest| ==> sep !in rest[i] by {
        forall i | 0 <= i < |rest| ensures sep !in rest[i] {
          assert rest[i] == fields[i + 1];
        }
      }
      SplitJoin(rest, sep);
      assert sep !in fields[0];
      SplitOnStep(fields[0], sep, Join(rest, sep));
      assert [fields[0]] + rest == fields;
    } else {
      assert sep !in fields[0];
      assert [fields[0]] == fields;
    }
  }

  /** Joining undoes splitting. */
  lemma {:induction false} JoinSplit(s: string, sep: char)
    ensures Join(SplitOn(s, sep), sep) == s
    decreases |s|
  {
    if sep in s {
      var i := IndexOf(s, sep);
      JoinSplit(s[i + 1..], sep);
      assert s == s[..i] + [sep] + s[i + 1..];
    }
  }

  /** `s` with its leading whitespace dropped. */
  function TrimStart(s: string): (r: string)
    ensures |r| <= |s| && r == s[|s| - |r|..]
    ensures AllSpace(s[..|s| - |r|])
    ensures r == [] || !IsSpace(r[0])
  {
    if s == [] || !IsSpace(s[0]) then s
    else
      var r := TrimStart(s[1..]);
      assert s[..|s| - |r|] == [s[0]] + s[1..][..|s[1..]| - |r|];
      r
  }

  /** The longest prefix of `s` without whitespace. */
  function Word(s: string): (r: string)
    ensures r <= s && NoSpace(r)
    ensures |r| < |s| ==> IsSpace(s[|r|])
  {
    if s == [] || IsSpace(s[0]) then [] else [s[0]] + Word(s[1..])
  }

  /** `s.split()[0]`, or None where that raises because `s` is all
      whitespace. */
  function FirstToken(s: string): (r: Option<string>)
    ensures r.None? <==> AllSpace(s)
    ensures r.Some? ==> r.value != [] && NoSpace(r.value)
  {
    var t := TrimStart(s);
    if t == [] then None
    else
      assert s == s[..|s| - |t|] + t;
      Some(Word(t))
  }

  /** A word followed by nothing or by whitespace is the first token. */
  lemma FirstTokenOfWord(word: string, rest: string)
    requires word != [] && NoSpace(word)
    requires rest == [] || IsSpace(rest[0])
    ensures FirstToken(word + rest) == Some(word)
  {
    assert TrimStart(word + rest) == word + rest;
    WordOf(word, rest);
  }

  lemma {:induction false} WordOf(word: string, rest: string)
    requires NoSpace(word)
    requires rest == [] || IsSpace(rest[0])
    ensures Word(word + rest) == word
  {
    if word != [] {
      assert (word + rest)[1..] == word[1..] + rest;
      WordOf(word[1..], rest);
    } else {
      assert word + rest == rest;
    }
  }

  /** Leading whitespace does not change the first token. */
  lemma {:induction false} FirstTokenSkipsSpace(space: string, s: string)
    requires AllSpace(space)
    ensures FirstToken(space + s) == FirstToken(s)
  {
    if space != [] {
      assert (space + s)[1..] == space[1..] + s;
      FirstTokenSkipsSpace(space[1..], s);
    } else {
      assert space + s == s;
    }
  }

  /** The title of a quoted entry: what follows the first quote in its first
      field, a comma, and what precedes the first quote in its second. */
  function QuotedTitle(field1: string, field2: string): (title: string)
    requires |field1| > 0 && field1[0] == '"'
    ensures '"' !in title
    ensures ',' in title
  {
    assert '"' in field1;
    SplitOn(field1, '"')[1] + "," + SplitOn(field2, '"')[0]
  }

  /** Quoting `first,second` and splitting it at the comma, the title reads
      back. */
  lemma QuotedTitleOf(first: string, second: string)
    requires '"' !in first && '"' !in second
    ensures QuotedTitle("\"" + first, second + "\"") == first + "," + second
  {
    SplitJoin(["", first], '"');
    assert Join(["", first], '"') == "\"" + first;
    SplitJoin([second, ""], '"');
    assert Join([second, ""], '"') == second + "\"";
  }

  /** The per-line body of `readRatings`. A line from the file is never
      empty: it holds at least its line break. */
  function ParseRatingLine(line: string): (r: ParsedLine)
    requires |line| > 0
    ensures line[0] != '2' <==> r == Ignored
    ensures r.Rated? ==> r.rating != [] && NoSpace(r.rating)
  {
    if line[0] != '2' then Ignored else ParseFields(SplitOn(line, ','))
  }

  /** The rest of the line body once the line is split at its commas: the
      title from field 1 (or fields 1 and 2 when quoted), the rating from the
      first word of field 4 (field 5 when quoted); a missing field or an
      empty title raises. */
  function ParseFields(fields: seq<string>): (r: ParsedLine)
    ensures r != Ignored
    ensures r.Rated? ==> r.rating != [] && NoSpace(r.rating)
  {
    if |fields| < 2 || |fields[1]| == 0 then Malformed
    else if fields[1][0] == '"' then
      if |fields| < 6 then Malformed
      else match FirstToken(fields[5])
        case None => Malformed
        case Some(rating) => Rated(QuotedTitle(fields[1], fields[2]), rating)
    else
      if |fields| < 5 then Malformed
      else match FirstToken(fields[4])
        case None => Malformed
        case Some(rating) => Rated(fields[1], rating)
  }

  /** A line starting with '2' made of the given fields is parsed from them. */
  lemma ParseJoined(fields: seq<string>)
    requires |fields| >= 1 && |fields[0]| > 0 && fields[0][0] == '2'
    requires forall i :: 0 <= i < |fields| ==> ',' !in fields[i]
    ensures |Join(fields, ',')| > 0 && ParseRatingLine(Join(fields, ',')) == ParseFields(fields)
  {
    SplitJoin(fields, ',');
    assert Join(fields, ',')[0] == fields[0][0];
  }

  /** A line of the ratings file as it is written for a title without a
      comma: date, title, year, address, rating, line break. */
  function PlainLine(date: string, title: Title, year: string, uri: string, rating: string): string {
    Join([date, title, year, uri, rating + "\n"], ',')
  }

  /** A line for a title holding one comma, `first,second`, written in double
      quotes. */
  function QuotedLine(date: string, first: string, second: string, year: string, uri: string, rating: string): string {
    Join([date, "\"" + first, second + "\"", year, uri, rating + "\n"], ',')
  }

  /** A field of the line: no comma inside. */
  predicate PlainField(s: string) {
    ',' !in s
  }

  /** What a rating written in the file looks like: one word, no comma. */
  predicate RatingWord(rating: string) {
    rating != [] && NoSpace(rating) && ',' !in rating
  }

  /** Reading a written line for a title without comma or leading quote gives
      back the title and the rating. */
  lemma PlainLineRoundTrip(date: string, title: Title, year: string, uri: string, rating: string)
    requires date != [] && date[0] == '2'
    requires PlainField(date) && PlainField(title) && PlainField(year) && PlainField(uri)
    requires title != [] && title[0] != '"'
    requires RatingWord(rating)
    ensures ParseRatingLine(PlainLine(date, title, year, uri, rating)) == Rated(title, rating)
  {
    var fields := [date, title, year, uri, rating + "\n"];
    assert PlainField(rating + "\n");
    ParseJoined(fields);
    FirstTokenOfWord(rating, "\n");
  }

  /** Reading a written line for a title with exactly one comma gives back
      the title and the rating. */
  lemma QuotedLineRoundTrip(date: string, first: string, second: string, year: string, uri: string, rating: string)
    requires date != [] && date[0] == '2'
    requires PlainField(date) && PlainField(first) && PlainField(second) && PlainField(year) && PlainField(uri)
    requires '"' !in first && '"' !in second
    requires RatingWord(rating)
    ensures ParseRatingLine(QuotedLine(date, first, second, year, uri, rating)) == Rated(first + "," + second, rating)
  {
    var fields := [date, "\"" + first, second + "\"", year, uri, rating + "\n"];
    assert PlainField("\"" + first) && PlainField(second + "\"") && PlainField(rating + "\n");
    ParseJoined(fields);
    FirstTokenOfWord(rating, "\n");
    QuotedTitleOf(first, second);
  }

  /** A quoted title with two commas, `first,second,third`, is read as
      `first,second`, and the field after the year (the address) is taken
      for the rating. */
  lemma TwoCommaTitleMisread(date: string, first: string, second: string, third: string,
                             year: string, uri: string, rating: string)
    requires date != [] && date[0] == '2'
    requires PlainField(date) && PlainField(first) && PlainField(second) && PlainField(third)
    requires PlainField(year) && RatingWord(uri) && PlainField(rating)
    requires '"' !in first && '"' !in second
    ensures ParseRatingLine(Join([date, "\"" + first, second, third + "\"", year, uri, rating + "\n"], ','))
            == Rated(first + "," + second, uri)
  {
    var fields := [date, "\"" + first, second, third + "\"", year, uri, rating + "\n"];
    assert PlainField("\"" + first) && PlainField(third + "\"") && PlainField(rating + "\n");
    ParseJoined(fields);
    assert FirstToken(fields[5]) == Some(uri) by {
      FirstTokenOfWord(uri, []);
      assert uri + [] == uri;
    }
    assert QuotedTitle(fields[1], fields[2]) == first + "," + second by {
      UnclosedQuotedTitle(first, second);
    }
  }

  /** When the second field holds no quote, the title is read up to its
      end. */
  lemma UnclosedQuotedTitle(first: string, second: string)
    requires '"' !in first && '"' !in second
    ensures QuotedTitle("\"" + first, second) == first + "," + second
  {
    SplitJoin(["", first], '"');
    assert Join(["", first], '"') == "\"" + first;
    assert SplitOn(second, '"') == [second];
  }

  /** Every line of the file, parsed. */
  function ParseAll(lines: seq<string>): (parsed: seq<ParsedLine>)
    requires forall i :: 0 <= i < |lines| ==> |lines[i]| > 0
    ensures |parsed| == |lines|
  {
    seq(|lines|, i requires 0 <= i < |lines| => ParseRatingLine(lines[i]))
  }

  /** The ratings collected from the parsed lines, in order, or None once a
      line has raised. A later rating of a title replaces an earlier one. */
  function Collect(parsed: seq<ParsedLine>): (ratings: Option<map<Title, string>>)
    ensures ratings.Some? ==> |ratings.value| <= |parsed|
  {
    if parsed == [] then Some(map[])
    else
      var last := |parsed| - 1;
      match Collect(parsed[..last])
      case None => None
      case Some(m) =>
        match parsed[last]
        case Ignored => Some(m)
        case Rated(title, rating) => Some(m[title := rating])
        case Malformed => None
  }

  /** The file loop of `readRatings` over the lines of the file: fill the
      dictionary line by line; a line that raises ends the reading with no
      result. */
  method ReadRatings(lines: seq<string>) returns (result: Option<map<Title, string>>)
    requires forall i :: 0 <= i < |lines| ==> |lines[i]| > 0
    ensures result == Collect(ParseAll(lines))
  {
    ghost var parsed := ParseAll(lines);
    var dictionary: map<Title, string> := map[];
    var i := 0;
    while i < |lines|
      invariant 0 <= i <= |lines|
      invariant Collect(parsed[..i]) == Some(dictionary)
    {
      assert parsed[..i + 1][..i] == parsed[..i];
      assert parsed[i] == ParseRatingLine(lines[i]);
      match ParseRatingLine(lines[i]) {
        case Ignored =>
        case Rated(title, rating) =>
          dictionary := dictionary[title := rating];
        case Malformed =>
          FailureStays(parsed, i + 1);
          return None;
      }
      i := i + 1;
    }
    assert parsed[..i] == parsed;
    return Some(dictionary);
  }

  /** Once a line has raised, no later line changes the outcome. */
  lemma {:induction false} FailureStays(parsed: seq<ParsedLine>, i: nat)
    requires i <= |parsed| && Collect(parsed[..i]).None?
    ensures Collect(parsed).None?
  {
    if i < |parsed| {
      var last := |parsed| - 1;
      assert parsed[..last][..i] == parsed[..i];
      FailureStays(parsed[..last], i);
    } else {
      assert parsed[..i] == parsed;
    }
  }

  /** The reading fails exactly when some line raises. */
  lemma {:induction false} CollectFails(parsed: seq<ParsedLine>)
    ensures Collect(parsed).None? <==> Malformed in parsed
  {
    if parsed != [] {
      var last := |parsed| - 1;
      CollectFails(parsed[..last]);
      assert parsed == parsed[..last] + [parsed[last]];
    }
  }

  /** Some line gives a rating for `title`. */
  predicate RatedIn(parsed: seq<ParsedLine>, title: Title) {
    exists i :: 0 <= i < |parsed| && parsed[i].Rated? && parsed[i].title == title
  }

  /** After a successful reading, a title has a rating exactly when some
      line rates it. */
  lemma {:induction false} CollectKeys(parsed: seq<ParsedLine>, title: Title)
    requires Collect(parsed).Some?
    ensures title in Collect(parsed).value <==> RatedIn(parsed, title)
  {
    if parsed != [] {
      var last := |parsed| - 1;
      var prefix := parsed[..last];
      CollectKeys(prefix, title);
      assert parsed == prefix + [parsed[last]];
      if RatedIn(prefix, title) {
        var i :| 0 <= i < last && prefix[i].Rated? && prefix[i].title == title;
        assert parsed[i] == prefix[i];
      }
      if RatedIn(parsed, title) && !(parsed[last].Rated? && parsed[last].title == title) {
        var i :| 0 <= i < |parsed| && parsed[i].Rated? && parsed[i].title == title;
        assert prefix[i] == parsed[i];
      }
    }
  }

  /** After a successful reading, the rating of a title is the one on the
      last line that rates it: a later line overwrites an earlier one. */
  lemma {:induction false} CollectLastWins(parsed: seq<ParsedLine>, i: nat)
    requires Collect(parsed).Some?
    requires i < |parsed| && parsed[i].Rated?
    requires forall j :: i < j < |parsed| ==> !(parsed[j].Rated? && parsed[j].title == parsed[i].title)
    ensures parsed[i].title in Collect(parsed).value
    ensures Collect(parsed).value[parsed[i].title] == parsed[i].rating
  {
    var last := |parsed| - 1;
    if i < last {
      var prefix := parsed[..last];
      assert prefix[i] == parsed[i];
      assert forall j :: i < j < last ==> prefix[j] == parsed[j];
      CollectLastWins(prefix, i);
    }
  }

  /** A line that does not start with '2' leaves the ratings as they were. */
  lemma IgnoredLine(lines: seq<string>, line: string)
    requires forall i :: 0 <= i < |lines| ==> |lines[i]| > 0
    requires |line| > 0 && line[0] != '2'
    ensures Collect(ParseAll(lines + [line])) == Collect(ParseAll(lines))
  {
    assert ParseAll(lines + [line]) == ParseAll(lines) + [Ignored];
    assert (ParseAll(lines) + [Ignored])[..|lines|] == ParseAll(lines);
  }
}
