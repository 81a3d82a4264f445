/**
 * The `/add <link> | <name> | <description> | <category> | <subscribers>`
 * command: the subscription gate, then the text is cut into five trimmed
 * fields, the last read as an integer, the category checked against the
 * fixed labels, and the row inserted. Each way the command can end is one
 * constructor of AddOutcome; the reply texts themselves are not modelled.
 */
module AddCommand {
  import opened Wrappers
  import opened Text
  import opened Sequences
  import Categories
  import Subscription
  import Channels

  /** What `replace` deletes from the message text (every occurrence). */
  const CommandPrefix: string := "/add "
  const FieldSeparator: char := '|'
  /** The separator the template shown to users puts between fields. */
  const TemplateSeparator: string := " | "
  const FieldCount: nat := 5

  datatype Submission = Submission(
    link: string,
    name: string,
    description: string,
    category: string,
    subscribers: int)

  datatype AddOutcome =
    | NotSubscribed
    | FormatError      // not exactly five fields
    | ParseError       // the fifth field is not an integer (the generic error reply)
    | BadCategory
    | Added(name: string, category: string)
    | AlreadyExists    // the insert was refused

  /**
   * `[p.strip() for p in text.replace('/add ', '').split('|')]`: one trimmed
   * field per separator-delimited piece, empty fields kept.
   */
  function Fields(text: string): (fields: seq<string>)
    ensures |fields| == Count(RemoveAll(text, CommandPrefix), FieldSeparator) + 1
    ensures forall i :: 0 <= i < |fields| ==> FieldSeparator !in fields[i] && Trimmed(fields[i])
  {
    var pieces := Split(RemoveAll(text, CommandPrefix), FieldSeparator);
    var fields := seq(|pieces|, i requires 0 <= i < |pieces| => Strip(pieces[i]));
    assert forall i :: 0 <= i < |fields| ==> forall c :: c in fields[i] ==> c in pieces[i] by {
      forall i | 0 <= i < |fields| ensures forall c :: c in fields[i] ==> c in pieces[i] {
        StripIsSlice(pieces[i]);
        var a, b :| PaddedBy(pieces[i], a, b) && Strip(pieces[i]) == pieces[i][a..b];
        assert forall k :: 0 <= k < b - a ==> fields[i][k] == pieces[i][a + k];
      }
    }
    fields
  }

  /**
   * The checks in the order the handler makes them: field count, then the
   * integer, then the category. A wrong count wins over everything, and a
   * bad integer wins over a bad category. On success the submission holds
   * the five fields, the last one read as an integer.
   */
  function ParseSubmission(text: string): (r: Result<Submission, AddOutcome>)
    ensures r.Failure? ==> r.error in {FormatError, ParseError, BadCategory}
    ensures r == Failure(FormatError) <==> |Fields(text)| != FieldCount
    ensures r == Failure(ParseError) <==> |Fields(text)| == FieldCount && ParseInt(Fields(text)[4]).None?
    ensures r == Failure(BadCategory) <==>
      |Fields(text)| == FieldCount && ParseInt(Fields(text)[4]).Some? && !Categories.IsCategory(Fields(text)[3])
    ensures r.Success? ==>
      && Fields(text) == [r.value.link, r.value.name, r.value.description, r.value.category, Fields(text)[4]]
      && ParseInt(Fields(text)[4]) == Some(r.value.subscribers)
      && Categories.IsCategory(r.value.category)
  {
    var fields := Fields(text);
    if |fields| != FieldCount then Failure(FormatError)
    else match ParseInt(fields[4])
      case None => Failure(ParseError)
      case Some(subscribers) =>
        if !Categories.IsCategory(fields[3]) then Failure(BadCategory)
        else Success(Submission(fields[0], fields[1], fields[2], fields[3], subscribers))
  }

  /**
   * The handler: gate, parse, insert. A refused or failed command leaves
   * the table as it was; an accepted one inserts exactly the parsed row,
   * and the reply tells whether the insert went through.
   */
  method HandleAdd(table: Channels.ChannelTable, userId: int, membership: Option<string>, text: string)
    returns (reply: AddOutcome)
    requires table.Valid()
    modifies table
    ensures table.Valid()
    ensures !Subscription.IsSubscribed(membership) ==> reply == NotSubscribed && unchanged(table)
    ensures Subscription.IsSubscribed(membership) && ParseSubmission(text).Failure? ==>
      reply == ParseSubmission(text).error && unchanged(table)
    ensures Subscription.IsSubscribed(membership) && ParseSubmission(text).Success? ==>
      var s := ParseSubmission(text).value;
      var row := Channels.Row(old(table.nextId), userId, s.link, s.name, s.description, s.category, s.subscribers);
      if !Channels.HasLink(old(table.rows), s.link) && Channels.FitsInteger(userId) && Channels.FitsInteger(s.subscribers)
      then reply == Added(s.name, s.category) && table.rows == old(table.rows) + [row]
      else reply == AlreadyExists && unchanged(table)
    ensures (forall k :: 0 <= k < |old(table.rows)| ==> Categories.IsCategory(old(table.rows)[k].category)) ==>
      forall k :: 0 <= k < |table.rows| ==> Categories.IsCategory(table.rows[k].category)
  {
    if !Subscription.IsSubscribed(membership) {
      return NotSubscribed;
    }
    match ParseSubmission(text)
    case Failure(e) =>
      reply := e;
    case Success(s) =>
      var ok := table.Insert(userId, s.link, s.name, s.description, s.category, s.subscribers);
      reply := if ok then Added(s.name, s.category) else AlreadyExists;
  }

  /** The command as the add-button help text lays it out: `/add a | b | c | d | e`. */
  function Template(fields: seq<string>): string
    requires |fields| >= 1
  {
    CommandPrefix + Join(fields, TemplateSeparator)
  }

  /**
   * A field that survives the round trip: no separator, no surrounding
   * whitespace, and no `/add ` occurrence, not even one completed by the
   * space that follows the field in the template.
   */
  predicate PlainField(f: string) {
    FieldSeparator !in f && Strip(f) == f && !Contains(f + " ", CommandPrefix)
  }

  /** The joined fields carry no `/add `, so `replace` leaves them alone. */
  lemma {:induction false} JoinedFieldsUntouched(fields: seq<string>)
    requires |fields| >= 1
    requires forall i :: 0 <= i < |fields| ==> PlainField(fields[i])
    ensures !Contains(Join(fields, TemplateSeparator), CommandPrefix)
    decreases |fields|
  {
    var f := fields[0];
    if |fields| == 1 {
      if Contains(f, CommandPrefix) {
        ContainsPrefix(f, " ", CommandPrefix);
      }
    } else {
      var rest := Join(fields[1..], TemplateSeparator);
      JoinedFieldsUntouched(fields[1..]);
      ConsAbsent(' ', rest, CommandPrefix);
      ConsAbsent('|', " " + rest, CommandPrefix);
      assert ['|'] + (" " + rest) == "| " + rest;
      ConcatAbsent(f + " ", "| " + rest, CommandPrefix);
      assert f + " " + ("| " + rest) == f + TemplateSeparator + rest;
    }
  }

  /** Splitting the joined fields and trimming the pieces gives the fields back. */
  lemma {:induction false} JoinedFieldsSplit(fields: seq<string>)
    requires |fields| >= 1
    requires forall i :: 0 <= i < |fields| ==> PlainField(fields[i])
    ensures var pieces := Split(Join(fields, TemplateSeparator), FieldSeparator);
      |pieces| == |fields| && forall i :: 0 <= i < |fields| ==> Strip(pieces[i]) == fields[i]
    decreases |fields|
  {
    var f := fields[0];
    if |fields| == 1 {
      SplitNoSeparator(f, FieldSeparator);
    } else {
      var rest := Join(fields[1..], TemplateSeparator);
      JoinedFieldsSplit(fields[1..]);
      SplitAfterField(f, rest);
      LeadingSpaceSplit(rest);
      StripFixpoint(f);
      StripPadded(f, ' ', ' ');
      var pieces := Split(Join(fields, TemplateSeparator), FieldSeparator);
      assert pieces == [f + " "] + Split(" " + rest, FieldSeparator);
      forall i | 1 <= i < |fields| ensures Strip(pieces[i]) == fields[i] {
        assert pieces[i] == Split(" " + rest, FieldSeparator)[i - 1];
        assert fields[i] == fields[1..][i - 1];
      }
    }
  }

  /** The first field's piece runs up to the separator and keeps the space before it. */
  lemma SplitAfterField(f: string, rest: string)
    requires FieldSeparator !in f
    ensures Split(f + TemplateSeparator + rest, FieldSeparator) == [f + " "] + Split(" " + rest, FieldSeparator)
  {
    assert f + TemplateSeparator + rest == (f + " ") + [FieldSeparator] + (" " + rest);
    SplitAtSeparator(f + " ", " " + rest, FieldSeparator);
    assert FieldSeparator !in f + " ";
    SplitNoSeparator(f + " ", FieldSeparator);
  }

  /** A leading space joins the first piece and is stripped away with it. */
  lemma LeadingSpaceSplit(rest: string)
    ensures var outer, inner := Split(" " + rest, FieldSeparator), Split(rest, FieldSeparator);
      |outer| == |inner| && forall i :: 0 <= i < |inner| ==> Strip(outer[i]) == Strip(inner[i])
  {
    var outer, inner := Split(" " + rest, FieldSeparator), Split(rest, FieldSeparator);
    assert (" " + rest)[0] == ' ' && (" " + rest)[1..] == rest;
    assert outer == [[' '] + inner[0]] + inner[1..];
    forall i | 0 <= i < |inner| ensures Strip(outer[i]) == Strip(inner[i]) {
      if i == 0 {
        StripSpaceFirst(inner[0]);
      } else {
        assert outer[i] == inner[i];
      }
    }
  }

  /** A leading space makes no difference to the stripped result. */
  lemma StripSpaceFirst(s: string)
    ensures Strip(" " + s) == Strip(s)
  {
    assert (" " + s)[1..] == s;
  }

  /** The fields of a template-shaped command are exactly the fields it was built from. */
  lemma TemplateFields(fields: seq<string>)
    requires |fields| >= 1
    requires forall i :: 0 <= i < |fields| ==> PlainField(fields[i])
    ensures Fields(Template(fields)) == fields
  {
    var joined := Join(fields, TemplateSeparator);
    JoinedFieldsUntouched(fields);
    RemoveAllAbsent(joined, CommandPrefix);
    assert (CommandPrefix + joined)[|CommandPrefix|..] == joined;
    JoinedFieldsSplit(fields);
  }

  /** An integer written out with `str` is a plain field. */
  lemma NumeralIsPlain(n: int)
    ensures PlainField(IntToString(n))
  {
    var s := IntToString(n);
    StripFixpoint(s);
    FirstCharAbsent(s + " ", CommandPrefix);
  }

  /**
   * Round trip of the documented template: four plain fields and a number,
   * written as `/add a | b | c | d | n`, parse back to exactly those values,
   * and are refused only when the category is not one of the labels.
   */
  lemma TemplateRoundTrip(link: string, name: string, description: string, category: string, n: int)
    requires PlainField(link) && PlainField(name) && PlainField(description) && PlainField(category)
    ensures ParseSubmission(Template([link, name, description, category, IntToString(n)])) ==
      if Categories.IsCategory(category) then Success(Submission(link, name, description, category, n))
      else Failure(BadCategory)
  {
    var fields := [link, name, description, category, IntToString(n)];
    NumeralIsPlain(n);
    TemplateFields(fields);
    ParseIntToString(n);
  }

  /** Any other number of template fields is a format error. */
  lemma TemplateWrongCount(fields: seq<string>)
    requires |fields| >= 1 && |fields| != FieldCount
    requires forall i :: 0 <= i < |fields| ==> PlainField(fields[i])
    ensures ParseSubmission(Template(fields)) == Failure(FormatError)
  {
    TemplateFields(fields);
  }

  /** The five-field join written out. */
  lemma JoinFive(a: string, b: string, c: string, d: string, e: string, sep: string)
    ensures Join([a, b, c, d, e], sep) == a + sep + b + sep + c + sep + d + sep + e
  {
    var fs := [a, b, c, d, e];
    assert fs[1..] == [b, c, d, e];
    assert [b, c, d, e][1..] == [c, d, e];
    assert [c, d, e][1..] == [d, e];
    assert [d, e][1..] == [e];
    assert Join([d, e], sep) == d + sep + e;
    assert Join([c, d, e], sep) == c + sep + (d + sep + e);
    assert Join([b, c, d, e], sep) == b + sep + (c + sep + (d + sep + e));
    assert Join(fs, sep) == a + sep + (b + sep + (c + sep + (d + sep + e)));
  }

  /** A five-field command written out. */
  lemma TemplateFive(a: string, b: string, c: string, d: string, e: string)
    ensures Template([a, b, c, d, e]) ==
      CommandPrefix + a + TemplateSeparator + b + TemplateSeparator + c + TemplateSeparator + d + TemplateSeparator + e
  {
    JoinFive(a, b, c, d, e, TemplateSeparator);
  }

  /** A field with no '/', no separator and no surrounding whitespace is plain. */
  lemma SlashFreeIsPlain(f: string)
    requires '/' !in f && FieldSeparator !in f && Trimmed(f)
    ensures PlainField(f)
  {
    StripFixpoint(f);
    assert '/' !in f + " ";
    FirstCharAbsent(f + " ", CommandPrefix);
  }

  /** The example command, spelled out as the template builds it. */
  lemma ExampleSpelledOut(text: string)
    requires text == "/add @mychannel | قناتي | وصف القناة | تقنية | 1000"
    ensures "/add " + "@mychannel" + " | " + "قناتي" + " | " + "وصف القناة" + " | " + "تقنية" + " | " + "1000" == text
  {
    assert "/add " + "@mychannel" == "/add @mychannel";
    assert "/add @mychannel" + " | " == "/add @mychannel | ";
    assert "/add @mychannel | " + "قناتي" == "/add @mychannel | قناتي";
    assert "/add @mychannel | قناتي" + " | " == "/add @mychannel | قناتي | ";
    assert "/add @mychannel | قناتي | " + "وصف القناة" == "/add @mychannel | قناتي | وصف القناة";
    assert "/add @mychannel | قناتي | وصف القناة" + " | " == "/add @mychannel | قناتي | وصف القناة | ";
    assert "/add @mychannel | قناتي | وصف القناة | " + "تقنية" == "/add @mychannel | قناتي | وصف القناة | تقنية";
    assert "/add @mychannel | قناتي | وصف القناة | تقنية" + " | " == "/add @mychannel | قناتي | وصف القناة | تقنية | ";
  }

  /** The fields of the example are plain. */
  lemma ExampleFieldsPlain(link: string, name: string, description: string, category: string)
    requires link == "@mychannel" && name == "قناتي" && description == "وصف القناة" && category == "تقنية"
    ensures PlainField(link) && PlainField(name) && PlainField(description) && PlainField(category)
  {
    SlashFreeIsPlain(link);
    SlashFreeIsPlain(name);
    SlashFreeIsPlain(description);
    SlashFreeIsPlain(category);
  }

  /** The example the add-button text shows is accepted as it is written. */
  lemma DocumentedExample(text: string)
    requires text == "/add @mychannel | قناتي | وصف القناة | تقنية | 1000"
    ensures ParseSubmission(text) == Success(Submission("@mychannel", "قناتي", "وصف القناة", "تقنية", 1000))
  {
    var link, name, description, category := "@mychannel", "قناتي", "وصف القناة", "تقنية";
    ExampleFieldsPlain(link, name, description, category);
    assert IntToString(1000) == "1000";
    TemplateRoundTrip(link, name, description, category, 1000);
    TemplateFive(link, name, description, category, "1000");
    ExampleSpelledOut(text);
  }

  /** Pieces free of the separator and of surrounding whitespace come back as the fields. */
  lemma FieldsOfJoined(text: string, fields: seq<string>)
    requires |fields| >= 1
    requires RemoveAll(text, CommandPrefix) == Join(fields, [FieldSeparator])
    requires forall i :: 0 <= i < |fields| ==> FieldSeparator !in fields[i] && Trimmed(fields[i])
    ensures Fields(text) == fields
  {
    SplitJoin(fields, FieldSeparator);
  }

  /**
   * `replace` deletes `/add ` wherever it occurs, not just in front: a
   * second occurrence after the first field text goes too.
   */
  lemma CommandRemovedTwice(head: string, tail: string)
    requires '/' !in head && '/' !in tail
    ensures RemoveAll(CommandPrefix + head + CommandPrefix + tail, CommandPrefix) == head + tail
  {
    var s := CommandPrefix + head + CommandPrefix + tail;
    assert StartsWith(s, CommandPrefix);
    assert s[|CommandPrefix|..] == head + (CommandPrefix + tail);
    RemoveAllSkip(head, CommandPrefix + tail, CommandPrefix);
    assert StartsWith(CommandPrefix + tail, CommandPrefix);
    assert (CommandPrefix + tail)[|CommandPrefix|..] == tail;
    FirstCharAbsent(tail, CommandPrefix);
    RemoveAllAbsent(tail, CommandPrefix);
  }

  /** A field text free of '/', of the separator and of surrounding whitespace. */
  predicate Bare(f: string) {
    '/' !in f && FieldSeparator !in f && Trimmed(f)
  }

  /**
   * A description that mentions the command loses it: in
   * `/add l|n|a /add b|c|k` the description `a /add b` is read as `a b`.
   */
  lemma CommandTextRemovedEverywhere(link: string, name: string, before: string, after: string, category: string, count: string)
    requires Bare(link) && Bare(name) && Bare(before) && Bare(after) && Bare(category) && Bare(count)
    requires before != [] && after != []
    ensures Fields(CommandPrefix + (link + "|" + name + "|" + before + " ") + CommandPrefix + (after + "|" + category + "|" + count))
      == [link, name, before + " " + after, category, count]
  {
    var sep := [FieldSeparator];
    assert sep == "|";
    var head := link + sep + name + sep + before + " ";
    var tail := after + sep + category + sep + count;
    CommandRemovedTwice(head, tail);
    var description := before + " " + after;
    JoinFive(link, name, description, category, count, sep);
    JoinedHalvesRegroup(link, name, before, " ", after, category, count, sep);
    assert Trimmed(description) by {
      assert description[0] == before[0];
      assert description[|description| - 1] == after[|after| - 1];
    }
    var fields := [link, name, description, category, count];
    assert forall i :: 0 <= i < |fields| ==> FieldSeparator !in fields[i] && Trimmed(fields[i]);
    FieldsOfJoined(CommandPrefix + head + CommandPrefix + tail, fields);
  }
}
