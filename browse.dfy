/**
 * The inline-button side of the bot: routing a button's payload, the
 * category menu, and the page that lists one category's channels.
 */
module Browse {
  import opened Text
  import opened Sequences
  import Categories
  import Channels

  datatype Button = Button(caption: string, payload: string)

  /** What a button press asks for; anything unrecognised asks for nothing. */
  datatype CallbackAction =
    | ShowCategoryMenu
    | ShowCategory(category: string)
    | ShowAddInstructions
    | ShowHelp
    | BackToStart
    | NoAction

  const CategoryPrefix: string := "cat_"

  /**
   * The dispatch chain over the payload: "browse", then any payload starting
   * with "cat_", then "add", "help" and "back". The category is the payload
   * with every "cat_" deleted, and it is not checked against the labels.
   */
  function Route(payload: string): (a: CallbackAction)
    ensures a == ShowCategoryMenu <==> payload == "browse"
    ensures a.ShowCategory? <==> StartsWith(payload, CategoryPrefix)
    ensures a.ShowCategory? ==> a.category == RemoveAll(payload, CategoryPrefix)
    ensures payload == "add" ==> a == ShowAddInstructions
    ensures payload == "help" ==> a == ShowHelp
    ensures payload == "back" ==> a == BackToStart
    ensures a == NoAction <==> !StartsWith(payload, CategoryPrefix) && payload !in ["browse", "add", "help", "back"]
  {
    assert !StartsWith("browse", CategoryPrefix) by { assert "browse"[..4][0] != CategoryPrefix[0]; }
    assert !StartsWith("add", CategoryPrefix) && !StartsWith("help", CategoryPrefix);
    assert !StartsWith("back", CategoryPrefix) by { assert "back"[..4][0] != CategoryPrefix[0]; }
    if payload == "browse" then ShowCategoryMenu
    else if StartsWith(payload, CategoryPrefix) then ShowCategory(RemoveAll(payload, CategoryPrefix))
    else if payload == "add" then ShowAddInstructions
    else if payload == "help" then ShowHelp
    else if payload == "back" then BackToStart
    else NoAction
  }

  function CategoryButton(category: string): Button {
    Button("📂 " + category, CategoryPrefix + category)
  }

  const BackLabel: string := "🔙 رجوع"

  /** The menu the "browse" button shows: one button per label, in order, then "back". */
  function BrowseKeyboard(): (k: seq<Button>)
    ensures |k| == |Categories.Labels| + 1
  {
    seq(|Categories.Labels|, i requires 0 <= i < |Categories.Labels| => CategoryButton(Categories.Labels[i]))
      + [Button(BackLabel, "back")]
  }

  /** The loop that builds the category menu one button at a time. */
  method CategoryMenu() returns (keyboard: seq<Button>)
    ensures keyboard == BrowseKeyboard()
  {
    keyboard := [];
    for i := 0 to |Categories.Labels|
      invariant keyboard == BrowseKeyboard()[..i]
    {
      keyboard := keyboard + [CategoryButton(Categories.Labels[i])];
    }
    keyboard := keyboard + [Button(BackLabel, "back")];
  }

  /** Stripping "cat_" from a category button's payload gives back its category. */
  lemma CategoryPayloadRoundTrip(category: string)
    requires !Contains(category, CategoryPrefix)
    ensures Route(CategoryPrefix + category) == ShowCategory(category)
  {
    var payload := CategoryPrefix + category;
    assert StartsWith(payload, CategoryPrefix);
    assert payload[|CategoryPrefix|..] == category;
    RemoveAllAbsent(category, CategoryPrefix);
  }

  /**
   * Every button of the category menu routes back to what it shows: the
   * i-th button to the i-th category, the last one to the start menu.
   */
  lemma MenuButtonsRoute()
    ensures forall i :: 0 <= i < |Categories.Labels| ==>
      Route(BrowseKeyboard()[i].payload) == ShowCategory(Categories.Labels[i])
    ensures Route(BrowseKeyboard()[|Categories.Labels|].payload) == BackToStart
  {
    forall i | 0 <= i < |Categories.Labels|
      ensures Route(BrowseKeyboard()[i].payload) == ShowCategory(Categories.Labels[i])
    {
      var name := Categories.Labels[i];
      Categories.LabelsAreArabic(i);
      FirstCharAbsent(name, CategoryPrefix);
      CategoryPayloadRoundTrip(name);
    }
    assert BrowseKeyboard()[|Categories.Labels|].payload == "back";
    assert !StartsWith("back", CategoryPrefix) by { assert "back"[..4][0] != CategoryPrefix[0]; }
  }

  /**
   * Any "cat_" payload is routed to a listing, whether or not its category
   * is a label, and a doubled prefix is deleted as well: "cat_cat_X" lists X.
   */
  lemma CategoryNotValidated(x: string)
    requires !Contains(x, CategoryPrefix)
    ensures Route(CategoryPrefix + x) == ShowCategory(x)
    ensures Route(CategoryPrefix + (CategoryPrefix + x)) == ShowCategory(x)
  {
    CategoryPayloadRoundTrip(x);
    var payload := CategoryPrefix + (CategoryPrefix + x);
    assert StartsWith(payload, CategoryPrefix);
    assert payload[|CategoryPrefix|..] == CategoryPrefix + x;
  }

  /** Number of characters of a description a listing shows. */
  const PreviewLength: nat := 50
  /** Number of channels a listing shows, of the twenty the query returns. */
  const ShownLimit: nat := 10

  /** `description[:50]`: the description's first characters, at most fifty. */
  function Preview(description: string): (p: string)
    ensures p <= description
    ensures |p| == if |description| < PreviewLength then |description| else PreviewLength
  {
    if |description| <= PreviewLength then description else description[..PreviewLength]
  }

  /** One channel's block: its name, its description preview always followed by "...", and its link. */
  function EntryBlock(row: Channels.Row): string {
    "📢 " + row.name + "\n📝 " + Preview(row.description) + "...\n🔗 " + row.link + "\n\n"
  }

  /** The blocks of the given rows, in their order. */
  function Blocks(rows: seq<Channels.Row>): (b: seq<string>)
    ensures |b| == |rows| && forall i :: 0 <= i < |rows| ==> b[i] == EntryBlock(rows[i])
  {
    seq(|rows|, i requires 0 <= i < |rows| => EntryBlock(rows[i]))
  }

  /** One more row, one more block at the end. */
  lemma BlocksSnoc(rows: seq<Channels.Row>, i: nat)
    requires i < |rows|
    ensures Blocks(rows[..i + 1]) == Blocks(rows[..i]) + [EntryBlock(rows[i])]
  {
    var a, b := Blocks(rows[..i + 1]), Blocks(rows[..i]) + [EntryBlock(rows[i])];
    assert |a| == |b|;
    forall k | 0 <= k < |a| ensures a[k] == b[k] {
      assert rows[..i + 1][k] == rows[k];
    }
  }

  /**
   * Rendering rows one batch after another gives the same text as
   * rendering them all at once: each block depends on its own row only.
   */
  lemma BlocksAppend(a: seq<Channels.Row>, b: seq<Channels.Row>)
    ensures Concat(Blocks(a + b)) == Concat(Blocks(a)) + Concat(Blocks(b))
  {
    assert Blocks(a + b) == Blocks(a) + Blocks(b);
    ConcatAppend(Blocks(a), Blocks(b));
  }

  function ListingHeader(category: string): string {
    "📋 قنوات " + category + ":\n\n"
  }

  function EmptyNotice(category: string): string {
    "لا توجد قنوات في " + category + " حالياً\nكن أول من يضيف!"
  }

  /** A category page: the empty-state notice, or the listing with a button back to the menu. */
  datatype CategoryPage =
    | NoChannels(notice: string)
    | ChannelPage(message: string, back: Button)

  function ShownCount(n: nat): (k: nat)
    ensures k <= n && k <= ShownLimit && (k < ShownLimit ==> k == n)
  {
    if n < ShownLimit then n else ShownLimit
  }

  /** The page for a category's query result: the first ten rows, one block each. */
  function ListingPage(category: string, channels: seq<Channels.Row>): CategoryPage {
    if channels == [] then NoChannels(EmptyNotice(category))
    else ChannelPage(ListingHeader(category) + Concat(Blocks(channels[..ShownCount(|channels|)])), Button(BackLabel, "browse"))
  }

  /** The loop that appends one block per shown channel, after the header. */
  method RenderCategory(category: string, channels: seq<Channels.Row>) returns (page: CategoryPage)
    ensures page == ListingPage(category, channels)
  {
    if channels == [] {
      return NoChannels(EmptyNotice(category));
    }
    var shown := ShownCount(|channels|);
    var body := [];
    for i := 0 to shown
      invariant body == Concat(Blocks(channels[..i]))
    {
      BlocksSnoc(channels, i);
      ConcatSnoc(Blocks(channels[..i]), EntryBlock(channels[i]));
      body := body + EntryBlock(channels[i]);
    }
    var msg := ListingHeader(category) + body;
    page := ChannelPage(msg, Button(BackLabel, "browse"));
  }

  /**
   * Only the first ten rows reach the page: rows eleven to twenty, which
   * the query does return, change nothing in it.
   */
  lemma ListingIgnoresLaterRows(category: string, channels: seq<Channels.Row>)
    ensures ListingPage(category, channels) == ListingPage(category, channels[..ShownCount(|channels|)])
  {
    var k := ShownCount(|channels|);
    assert channels[..k][..ShownCount(k)] == channels[..k];
  }

  /** A non-empty result's page: the header, then the blocks of the shown rows. */
  lemma ListingMessage(category: string, channels: seq<Channels.Row>)
    requires channels != []
    ensures ListingPage(category, channels).message ==
      ListingHeader(category) + Concat(Blocks(channels[..ShownCount(|channels|)]))
  {
  }

  /**
   * The i-th block of a page is the i-th row's, placed after the blocks of
   * the rows before it and before those of the rows after it.
   */
  lemma ListingShowsRowsInOrder(category: string, channels: seq<Channels.Row>, i: nat)
    requires i < ShownCount(|channels|)
    ensures var blocks := Blocks(channels[..ShownCount(|channels|)]);
      ListingPage(category, channels).message ==
        ListingHeader(category) + Concat(blocks[..i]) + EntryBlock(channels[i]) + Concat(blocks[i + 1..])
  {
    var shown := channels[..ShownCount(|channels|)];
    var blocks := Blocks(shown);
    assert blocks[i] == EntryBlock(channels[i]) by { assert shown[i] == channels[i]; }
    ConcatSplit(blocks, i);
    ListingMessage(category, channels);
    AppendRegroup(ListingHeader(category), Concat(blocks[..i]), blocks[i], Concat(blocks[i + 1..]));
  }

  /** What a button press produces. */
  datatype CallbackReply =
    | Menu(keyboard: seq<Button>)
    | Listing(page: CategoryPage)
    | AddInstructions
    | HelpText
    | StartScreen
    | NoReply

  /**
   * `button_callback`: routes the payload and, for a category, queries the
   * table and renders the page; the table is only read.
   */
  method HandleCallback(table: Channels.ChannelTable, payload: string) returns (reply: CallbackReply)
    requires table.Valid()
    ensures match Route(payload)
      case ShowCategoryMenu => reply == Menu(BrowseKeyboard())
      case ShowCategory(c) => reply == Listing(ListingPage(c, table.ChannelsByCategory(c)))
      case ShowAddInstructions => reply == AddInstructions
      case ShowHelp => reply == HelpText
      case BackToStart => reply == StartScreen
      case NoAction => reply == NoReply
  {
    match Route(payload)
    case ShowCategoryMenu =>
      var keyboard := CategoryMenu();
      reply := Menu(keyboard);
    case ShowCategory(c) =>
      var page := RenderCategory(c, table.ChannelsByCategory(c));
      reply := Listing(page);
    case ShowAddInstructions =>
      reply := AddInstructions;
    case ShowHelp =>
      reply := HelpText;
    case BackToStart =>
      reply := StartScreen;
    case NoAction =>
      reply := NoReply;
  }

  /**
   * A category no row carries lists as the empty-state notice; in
   * particular a label-less "cat_" payload on a table filled only through
   * `/add`, which stores labels only.
   */
  lemma UnknownCategoryIsEmpty(table: Channels.ChannelTable, x: string)
    requires table.Valid()
    requires forall k :: 0 <= k < |table.rows| ==> Categories.IsCategory(table.rows[k].category)
    requires !Categories.IsCategory(x)
    ensures ListingPage(x, table.ChannelsByCategory(x)) == NoChannels(EmptyNotice(x))
  {
    assert forall y :: y in table.rows ==> y.category != x;
  }
}
