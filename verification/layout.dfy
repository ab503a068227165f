/** Layout reconciliation at start-up: the taskbar's `data-mobile` attribute and the body
    padding that keeps page content clear of the taskbar. */
module Layout {
  import opened Dom

  /** The enclosing `.win98-taskbar-section` and its `data-position` and
      `data-mobile-behavior` attributes. */
  datatype Section = Section(position: Option<string>, mobileBehavior: Option<string>)

  /** `#win98-taskbar`: its inline `--taskbar-height` custom property ('' when not set), its
      enclosing section, and its `data-mobile` attribute. */
  datatype TaskbarElement = TaskbarElement(height: string, section: Option<Section>, dataMobile: Option<string>)

  /** The body's inline `padding-top` and `padding-bottom` ('' when cleared). */
  datatype Body = Body(paddingTop: string, paddingBottom: string)

  const DefaultHeight := "28px"
  const DefaultPosition := "bottom"
  const DefaultMobile := "mini"
  const Top := "top"

  /** JavaScript's `value || fallback` on an attribute that may be missing: a missing
      attribute and the empty string both fall through to the fallback. */
  function OrElse(v: Option<string>, fallback: string): (r: string)
    ensures v.Some? && v.value != "" ==> r == v.value
    ensures v.None? || v.value == "" ==> r == fallback
    ensures r != "" || fallback == ""
  {
    if v.Some? && v.value != "" then v.value else fallback
  }

  /** The configured edge, `bottom` unless the section says otherwise. */
  function Position(tb: TaskbarElement): (r: string)
    ensures r != ""
    ensures tb.section.None? ==> r == DefaultPosition
  {
    OrElse(if tb.section.Some? then tb.section.value.position else None, DefaultPosition)
  }

  /** The padding that clears a taskbar of height `h`. */
  function Offset(h: string): string {
    "calc(" + h + " + 2px)"
  }

  /** Reads back the height an `Offset` was made from. */
  function HeightOf(padding: string): (r: Option<string>)
    ensures r.Some? ==> Offset(r.value) == padding
  {
    if |padding| >= 12 && padding[..5] == "calc(" && padding[|padding| - 7..] == " + 2px)"
    then
      var h := padding[5..|padding| - 7];
      assert padding == padding[..5] + h + padding[|padding| - 7..];
      Some(h)
    else None
  }

  lemma OffsetRoundTrip(h: string)
    ensures HeightOf(Offset(h)) == Some(h)
  {
    var p := Offset(h);
    assert p[..5] == "calc(";
    assert p[|p| - 7..] == " + 2px)";
    assert p[5..|p| - 7] == h;
  }

  /** `updateBodyPadding`. Without the taskbar the body is untouched. Otherwise exactly one
      side is padded: the top when the position is `top`, the bottom for any other or a
      missing position, by the taskbar's height (`28px` when not set) plus 2px; the other
      side is cleared. */
  function UpdateBodyPadding(tb: Option<TaskbarElement>, body: Body): (r: Body)
    ensures tb.None? ==> r == body
    ensures tb.Some? ==> (r.paddingTop == "") != (r.paddingBottom == "")
    ensures tb.Some? && Position(tb.value) == Top ==>
      r.paddingBottom == "" && HeightOf(r.paddingTop) == Some(OrElse(Some(tb.value.height), DefaultHeight))
    ensures tb.Some? && Position(tb.value) != Top ==>
      r.paddingTop == "" && HeightOf(r.paddingBottom) == Some(OrElse(Some(tb.value.height), DefaultHeight))
  {
    if tb.None? then body
    else
      var h := OrElse(Some(tb.value.height), DefaultHeight);
      OffsetRoundTrip(h);
      if Position(tb.value) == Top then Body(Offset(h), "") else Body("", Offset(h))
  }

  /** Padding the body a second time changes nothing. */
  lemma BodyPaddingIdempotent(tb: Option<TaskbarElement>, body: Body)
    ensures UpdateBodyPadding(tb, UpdateBodyPadding(tb, body)) == UpdateBodyPadding(tb, body)
  {
  }

  /** `updateMobileAttribute`: only when both the taskbar and its section exist, sets
      `data-mobile` to the section's mobile behaviour, `mini` when that is missing or empty;
      nothing else changes. */
  function UpdateMobileAttribute(tb: Option<TaskbarElement>): (r: Option<TaskbarElement>)
    ensures tb.None? ==> r.None?
    ensures tb.Some? && tb.value.section.None? ==> r == tb
    ensures tb.Some? && tb.value.section.Some? ==>
      && r.Some? && r.value.height == tb.value.height && r.value.section == tb.value.section
      && r.value.dataMobile.Some? && r.value.dataMobile.value != ""
      && (tb.value.section.value.mobileBehavior.Some? && tb.value.section.value.mobileBehavior.value != "" ==>
            r.value.dataMobile == tb.value.section.value.mobileBehavior)
      && (tb.value.section.value.mobileBehavior.None? || tb.value.section.value.mobileBehavior.value == "" ==>
            r.value.dataMobile == Some(DefaultMobile))
  {
    if tb.None? || tb.value.section.None? then tb
    else Some(tb.value.(dataMobile := Some(OrElse(tb.value.section.value.mobileBehavior, DefaultMobile))))
  }
}
