/** The shape of one row of the task table, as the task list page fetches it
    from the content store, and the columns the table can be sorted by. */
module TaskRows {
  import opened Js

  /** `slug{current}`: the slug object may be missing, and so may its value. */
  datatype Slug = Slug(current: Option<string>)

  /** `category->{title}`: the dereferenced category, reduced to its title. */
  datatype CategoryRef = CategoryRef(title: Option<string>)

  /** A span of a rich-text block; `text` is absent on non-text spans. */
  datatype Span = Span(text: Option<string>)

  /** A rich-text block; `children` may be absent. */
  datatype Block = Block(children: Option<seq<Span>>)

  /** The `oneLiner` field, typed `any` in the source: absent, a plain string,
      or a rich-text array whose entries may themselves be null. */
  datatype OneLiner = Missing | Text(s: string) | Blocks(blocks: seq<Option<Block>>)

  /** `icon{asset->{url}}`. */
  datatype Asset = Asset(url: Option<string>)
  datatype Icon = Icon(asset: Option<Asset>)

  /** One task as handed to the table; only `_id` is required. */
  datatype TaskRow = TaskRow(
    id: string,
    slug: Option<Slug>,
    title: Option<string>,
    code: Option<string>,
    category: Option<CategoryRef>,
    oneLiner: OneLiner,
    icon: Option<Icon>)

  /** The sortable columns: the `code` and `title` fields and the derived
      `categoryTitle`. */
  datatype SortKey = Code | Title | CategoryTitle

  /** The string a row is compared by: the selected field, with a missing
      field (or a missing category, or a category without a title) read as
      the empty string. */
  function SortValue(row: TaskRow, key: SortKey): (r: string)
    ensures key == Code ==> (r == "" <==> row.code.None? || row.code == Some(""))
    ensures key == Title ==> (r == "" <==> row.title.None? || row.title == Some(""))
    ensures key == CategoryTitle ==>
      (r == "" <==> row.category.None? || row.category.value.title.None? || row.category.value.title == Some(""))
  {
    match key
    case Code => Coalesce(row.code, "")
    case Title => Coalesce(row.title, "")
    case CategoryTitle =>
      if row.category.Some? then Coalesce(row.category.value.title, "") else ""
  }

  /** A present field is compared as it is; a missing field, a missing
      category or a category without a title is compared as the empty
      string. */
  lemma SortValueOfField(row: TaskRow)
    ensures SortValue(row, Code) == (if row.code.Some? then row.code.value else "")
    ensures SortValue(row, Title) == (if row.title.Some? then row.title.value else "")
    ensures SortValue(row, CategoryTitle) ==
      (if row.category.Some? && row.category.value.title.Some? then row.category.value.title.value else "")
  {
  }
}
