/** The list preview of a playbook document in the content studio: the
    selected fields are formatted into a title (with the version in
    parentheses when there is one) and a subtitle (type and status, each with
    a default). */
module PlaybookPreview {
  import opened Js

  /** The fields the preview selects: `title`, `playbookType` as the
      subtitle, `heroImage` as the media, `status` and `version`. The media
      value is passed through untouched, so its type is left open. */
  datatype Selection<M> = Selection(
    title: Option<string>,
    subtitle: Option<string>,
    media: Option<M>,
    status: Option<string>,
    version: Option<string>)

  /** What the studio shows for the document. */
  datatype Preview<M> = Preview(title: string, subtitle: string, media: Option<M>)

  /** The type shown when the playbook type is falsy. */
  const DefaultType := "playbook"

  /** The schema's initial value for `status`, also the status shown when it
      is falsy. */
  const StatusInitialValue := "draft"

  /** Between the type and the status in the subtitle. */
  const Separator := " • "

  /** The values the schema offers for `playbookType` and for `status`. */
  const PlaybookTypes := ["task", "workflow", "starterKit", "referenceArchitecture", "evaluation"]
  const Statuses := ["draft", "review", "published", "archived"]

  /** The version part of the title: the version in parentheses when it is
      truthy, nothing otherwise. */
  function VersionSuffix(version: Option<string>): (r: string)
    ensures r == "" <==> !Truthy(version)
    ensures Truthy(version) ==> |r| == |version.value| + 2
  {
    if Truthy(version) then "(" + version.value + ")" else ""
  }

  /** `prepare`. */
  function Prepare<M>(sel: Selection<M>): (r: Preview<M>)
    ensures r.media == sel.media
    ensures |r.title| > |Interpolate(sel.title)|
    ensures |r.subtitle| > |Separator|
  {
    Preview(
      Interpolate(sel.title) + " " + VersionSuffix(sel.version),
      Or(sel.subtitle, DefaultType) + Separator + Or(sel.status, StatusInitialValue),
      sel.media)
  }

  // ---------------------------------------------------------------------
  // Properties

  /** With a truthy version the title is the title, a space and the version
      in parentheses; with a falsy one (absent or empty) it is the title
      followed by a trailing space. */
  lemma TitleShape<M>(sel: Selection<M>)
    ensures Truthy(sel.version) ==> Prepare(sel).title == Interpolate(sel.title) + " (" + sel.version.value + ")"
    ensures !Truthy(sel.version) ==> Prepare(sel).title == Interpolate(sel.title) + " "
  {
  }

  /** The title has no fallback: an absent title is printed as the text
      `undefined`, a present one verbatim, at the start of the preview title. */
  lemma TitleHasNoFallback<M>(sel: Selection<M>)
    ensures sel.title.None? ==> Prepare(sel).title[..9] == "undefined"
    ensures sel.title.Some? ==> Prepare(sel).title[..|sel.title.value|] == sel.title.value
  {
    var t := Interpolate(sel.title);
    assert (t + " " + VersionSuffix(sel.version))[..|t|] == t;
  }

  /** Knowing the title, the version is read back from the preview title:
      what follows the title and the space is empty exactly when the version
      is falsy, and is otherwise the version between parentheses. */
  lemma VersionRecoverable<M>(sel: Selection<M>)
    ensures var n := |Interpolate(sel.title)| + 1;
      && n <= |Prepare(sel).title|
      && (Prepare(sel).title[n..] == "" <==> !Truthy(sel.version))
      && (Truthy(sel.version) ==>
            var rest := Prepare(sel).title[n..];
            |rest| >= 2 && rest[0] == '(' && rest[|rest| - 1] == ')' && rest[1..|rest| - 1] == sel.version.value)
  {
    var head := Interpolate(sel.title) + " ";
    var suffix := VersionSuffix(sel.version);
    assert Prepare(sel).title == head + suffix;
    assert (head + suffix)[|head|..] == suffix;
    if Truthy(sel.version) {
      assert suffix[1..|suffix| - 1] == sel.version.value;
    }
  }

  /** The subtitle is the type, the separator and the status, with a falsy
      type shown as "playbook" and a falsy status as "draft"; neither half is
      ever empty. */
  lemma SubtitleShape<M>(sel: Selection<M>)
    ensures var sub := Prepare(sel).subtitle;
      var ty := if Truthy(sel.subtitle) then sel.subtitle.value else DefaultType;
      var st := if Truthy(sel.status) then sel.status.value else StatusInitialValue;
      && ty != "" && st != ""
      && sub[..|ty|] == ty
      && sub[|ty|..|ty| + |Separator|] == Separator
      && sub[|ty| + |Separator|..] == st
  {
    var ty := Or(sel.subtitle, DefaultType);
    var st := Or(sel.status, StatusInitialValue);
    var sub := ty + Separator + st;
    assert sub[..|ty|] == ty;
    assert sub[|ty|..|ty| + |Separator|] == Separator;
    assert sub[|ty| + |Separator|..] == st;
  }

  /** A document whose status is falsy previews exactly like one whose status
      is the schema's initial value. */
  lemma FalsyStatusIsInitialValue<M>(sel: Selection<M>)
    requires !Truthy(sel.status)
    ensures Prepare(sel) == Prepare(sel.(status := Some(StatusInitialValue)))
  {
  }

  /** For every type and status the schema offers, the subtitle shows both
      as they are. */
  lemma ListedValuesShownVerbatim<M>(sel: Selection<M>)
    requires sel.subtitle.Some? && sel.subtitle.value in PlaybookTypes
    requires sel.status.Some? && sel.status.value in Statuses
    ensures Prepare(sel).subtitle == sel.subtitle.value + Separator + sel.status.value
  {
  }

  /** The media is the selected hero image, unchanged, and does not affect
      the title or the subtitle. */
  lemma MediaPassedThrough<M>(sel: Selection<M>, other: Option<M>)
    ensures Prepare(sel).media == sel.media
    ensures Prepare(sel.(media := other)) == Prepare(sel).(media := other)
  {
  }
}
