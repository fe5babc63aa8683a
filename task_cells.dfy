/** What each cell of a task-table row displays: the fixed fallback chains
    for the code, title, one-liner and category, the task link, and the
    icon. */
module TaskCells {
  import opened Js
  import opened TaskRows

  /** The dash shown for a missing value. */
  const Dash := "—"

  /** The "Task ID" cell: the code, or a dash when it is missing. */
  function CodeCell(row: TaskRow): (r: string)
    ensures r == "" ==> row.code == Some("")
  {
    Coalesce(row.code, Dash)
  }

  /** The "Name" cell: the title, or "Untitled task" when it is missing. */
  function TitleCell(row: TaskRow): (r: string)
    ensures r == "" ==> row.title == Some("")
  {
    Coalesce(row.title, "Untitled task")
  }

  /** The "Category" cell: the category's title, or a dash when the category
      or its title is missing. */
  function CategoryCell(row: TaskRow): (r: string)
    ensures r == "" ==> row.category.Some? && row.category.value.title == Some("")
  {
    if row.category.Some? then Coalesce(row.category.value.title, Dash) else Dash
  }

  /** `c.text` as `join` prints it: an absent text prints as nothing. */
  function SpanText(c: Span): (r: string)
    ensures r == "" || c.text == Some(r)
  {
    Coalesce(c.text, "")
  }

  /** `children.map((c) => c.text).join('')`. */
  function JoinTexts(cs: seq<Span>): (r: string)
    ensures forall i :: 0 <= i < |cs| ==> |SpanText(cs[i])| <= |r|
  {
    if cs == [] then "" else JoinTexts(cs[..|cs| - 1]) + SpanText(cs[|cs| - 1])
  }

  /** The plain text of the first block of a rich-text one-liner, or the
      empty string when there is no first block or it has no children. */
  function FirstBlockText(blocks: seq<Option<Block>>): (r: string)
    ensures r != "" ==> blocks != [] && blocks[0].Some? && blocks[0].value.children.Some?
  {
    if blocks == [] then ""
    else match blocks[0]
      case None => ""
      case Some(b) => if b.children.Some? then JoinTexts(b.children.value) else ""
  }

  /** The "Brief Description" cell: the first block's text for a rich-text
      one-liner, the value itself for a plain one, a dash when it is missing. */
  function OneLinerCell(row: TaskRow): (r: string)
    ensures row.oneLiner.Blocks? && row.oneLiner.blocks != [] ==> r == FirstBlockText(row.oneLiner.blocks[..1])
    ensures row.oneLiner.Missing? ==> r != ""
  {
    match row.oneLiner
    case Blocks(blocks) => FirstBlockText(blocks)
    case Text(s) => s
    case Missing => Dash
  }

  /** The "Link" cell. */
  datatype LinkCell = TaskLink(href: string) | NoLink

  const TaskPathPrefix := "/task/"

  /** A link to the task's page when the slug is truthy, "No link" otherwise. */
  function Link(row: TaskRow): (r: LinkCell)
    ensures r.TaskLink? ==> TaskPathPrefix <= r.href && |r.href| > |TaskPathPrefix|
  {
    if row.slug.Some? && Truthy(row.slug.value.current) then
      TaskLink(TaskPathPrefix + row.slug.value.current.value)
    else NoLink
  }

  /** The text the link cell shows; the cell is never blank. */
  function LinkText(l: LinkCell): (r: string)
    ensures r != ""
  {
    if l.TaskLink? then "View task →" else "No link"
  }

  /** The link cell reads "View task →" exactly when the slug is truthy and
      "No link" exactly when it is not. */
  lemma LinkCellText(row: TaskRow)
    ensures LinkText(Link(row)) == "View task →" <==> row.slug.Some? && Truthy(row.slug.value.current)
    ensures LinkText(Link(row)) == "No link" <==> !(row.slug.Some? && Truthy(row.slug.value.current))
  {
  }

  /** The icon cell: an image of the asset's URL when that URL is truthy,
      nothing otherwise. */
  function IconSource(row: TaskRow): (r: Option<string>)
    ensures r.Some? ==> r.value != "" && row.icon.Some?
  {
    if row.icon.Some? && row.icon.value.asset.Some? && Truthy(row.icon.value.asset.value.url) then
      Some(row.icon.value.asset.value.url.value)
    else None
  }

  // ---------------------------------------------------------------------
  // Properties of the fallbacks

  /** A present code is shown as it is, even when empty; the dash stands only
      for a missing code or a code that is itself a dash. */
  lemma CodeFallback(row: TaskRow)
    ensures row.code.Some? ==> CodeCell(row) == row.code.value
    ensures CodeCell(row) == Dash <==> row.code.None? || row.code == Some(Dash)
    ensures CodeCell(row) == "" <==> row.code == Some("")
  {
  }

  /** A present title is shown as it is; "Untitled task" stands only for a
      missing title or a title with that very text. */
  lemma TitleFallback(row: TaskRow)
    ensures row.title.Some? ==> TitleCell(row) == row.title.value
    ensures TitleCell(row) == "Untitled task" <==> row.title.None? || row.title == Some("Untitled task")
    ensures TitleCell(row) == "" <==> row.title == Some("")
  {
  }

  /** The category cell shows the category's title when there is one, and a
      dash exactly when the title is missing or is itself a dash. */
  lemma CategoryFallback(row: TaskRow)
    ensures row.category.Some? && row.category.value.title.Some? ==> CategoryCell(row) == row.category.value.title.value
    ensures CategoryCell(row) == Dash <==>
      row.category.None? || row.category.value.title.None? || row.category.value.title == Some(Dash)
  {
  }

  /** The category cell and the category sort value agree whenever the title
      is present; they differ only in the fallback for a missing one. */
  lemma CategoryCellMatchesSortValue(row: TaskRow)
    ensures row.category.Some? && row.category.value.title.Some? ==> CategoryCell(row) == SortValue(row, CategoryTitle)
    ensures !(row.category.Some? && row.category.value.title.Some?) ==>
      CategoryCell(row) == Dash && SortValue(row, CategoryTitle) == ""
  {
  }

  /** Joining texts distributes over concatenation of the spans. */
  lemma {:induction false} JoinTextsAppend(a: seq<Span>, b: seq<Span>)
    ensures JoinTexts(a + b) == JoinTexts(a) + JoinTexts(b)
    decreases |b|
  {
    if b == [] {
      assert a + b == a;
    } else {
      var b' := b[..|b| - 1];
      assert (a + b)[..|a + b| - 1] == a + b';
      JoinTextsAppend(a, b');
    }
  }

  /** The joined text is empty exactly when every span's text is missing or
      empty. */
  lemma {:induction false} JoinTextsEmpty(cs: seq<Span>)
    ensures JoinTexts(cs) == "" <==> forall i :: 0 <= i < |cs| ==> SpanText(cs[i]) == ""
  {
    if cs != [] {
      var cs' := cs[..|cs| - 1];
      JoinTextsEmpty(cs');
      if JoinTexts(cs) == "" {
        forall i | 0 <= i < |cs| ensures SpanText(cs[i]) == "" {
          if i < |cs| - 1 {
            assert cs[i] == cs'[i];
          }
        }
      } else {
        assert JoinTexts(cs') != "" || SpanText(cs[|cs| - 1]) != "";
        if JoinTexts(cs') != "" {
          var i :| 0 <= i < |cs'| && SpanText(cs'[i]) != "";
          assert cs[i] == cs'[i];
        }
      }
    }
  }

  /** Each span contributes its own text in order: the joined text is the
      text of the first span followed by the joined text of the rest. */
  lemma JoinTextsCons(c: Span, cs: seq<Span>)
    ensures JoinTexts([c] + cs) == SpanText(c) + JoinTexts(cs)
  {
    JoinTextsAppend([c], cs);
    assert [c][..0] == [];
  }

  /** Only the first block of a rich-text one-liner is shown; the blocks after
      it never change the cell. */
  lemma OnlyFirstBlockShown(row: TaskRow, first: Option<Block>, rest: seq<Option<Block>>)
    requires row.oneLiner == Blocks([first] + rest)
    ensures OneLinerCell(row) == OneLinerCell(row.(oneLiner := Blocks([first])))
  {
  }

  /** The one-liner cell by kind of value: a missing one shows a dash, a
      plain one shows itself, a rich-text array with no first block, a null
      first block or a first block without children shows nothing, and
      otherwise the first block's joined text is shown. */
  lemma OneLinerFallback(row: TaskRow)
    ensures row.oneLiner.Missing? ==> OneLinerCell(row) == Dash
    ensures row.oneLiner.Text? ==> OneLinerCell(row) == row.oneLiner.s
    ensures row.oneLiner.Blocks?
              && (row.oneLiner.blocks == [] || row.oneLiner.blocks[0].None?
                  || row.oneLiner.blocks[0].value.children.None?)
            ==> OneLinerCell(row) == ""
    ensures row.oneLiner.Blocks? && row.oneLiner.blocks != [] && row.oneLiner.blocks[0].Some?
              && row.oneLiner.blocks[0].value.children.Some?
            ==> OneLinerCell(row) == JoinTexts(row.oneLiner.blocks[0].value.children.value)
  {
  }

  /** The link exists exactly when the slug is truthy; its address is the
      task path prefix followed by the slug, so the slug can be read back
      from it. */
  lemma LinkRoundTrip(row: TaskRow)
    ensures Link(row).TaskLink? <==> row.slug.Some? && Truthy(row.slug.value.current)
    ensures Link(row).TaskLink? ==>
      && TaskPathPrefix <= Link(row).href
      && Link(row).href[|TaskPathPrefix|..] == row.slug.value.current.value
      && |Link(row).href| > |TaskPathPrefix|
  {
    if Link(row).TaskLink? {
      var slug := row.slug.value.current.value;
      assert (TaskPathPrefix + slug)[|TaskPathPrefix|..] == slug;
    }
  }

  /** Two rows link to the same address exactly when their slugs are the same
      truthy value. */
  lemma LinkInjective(a: TaskRow, b: TaskRow)
    requires Link(a).TaskLink? && Link(b).TaskLink?
    ensures Link(a) == Link(b) <==> a.slug.value.current == b.slug.value.current
  {
    LinkRoundTrip(a);
    LinkRoundTrip(b);
  }

  /** The icon shows exactly when the asset URL is truthy, and shows that URL. */
  lemma IconShownWhenUrlTruthy(row: TaskRow)
    ensures IconSource(row).Some? <==>
      row.icon.Some? && row.icon.value.asset.Some? && Truthy(row.icon.value.asset.value.url)
    ensures IconSource(row).Some? ==> IconSource(row).value == row.icon.value.asset.value.url.value && IconSource(row).value != ""
  {
  }
}
