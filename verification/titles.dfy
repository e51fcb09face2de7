/** Merge-request title handling of `tsrc push`: adding and removing the
    work-in-progress marker, and choosing the title sent with the update. */
module Titles {
  import opened Strings

  /** The marker GitLab shows in front of a draft merge request. */
  const WipPrefix: string := "WIP: "

  /** `wipify`: the title with the marker in front, or `None` when the title
      already carries it (the source then returns nothing, not the title). */
  function Wipify(title: string): (r: Option<string>)
    ensures r.Some? <==> !StartsWith(title, WipPrefix)
    ensures r.Some? ==> StartsWith(r.value, WipPrefix) && r.value[|WipPrefix|..] == title
  {
    if !StartsWith(title, WipPrefix) then Some(WipPrefix + title) else None
  }

  /** `unwipify`: the title with one leading marker removed, or `None` when it
      does not start with the marker. */
  function Unwipify(title: string): (r: Option<string>)
    ensures r.Some? <==> StartsWith(title, WipPrefix)
    ensures r.Some? ==> WipPrefix + r.value == title
  {
    if StartsWith(title, WipPrefix) then Some(title[|WipPrefix|..]) else None
  }

  /** Marking a title as work in progress and then as ready gives it back. */
  lemma UnwipifyAfterWipify(title: string)
    requires !StartsWith(title, WipPrefix)
    ensures Wipify(title).Some?
    ensures Unwipify(Wipify(title).value) == Some(title)
  {
  }

  /** Marking a title carrying one marker as ready and then as work in
      progress gives it back. A doubly-marked title does not come back: its
      ready form still starts with the marker, so `wipify` declines it. */
  lemma WipifyAfterUnwipify(title: string)
    requires StartsWith(title, WipPrefix)
    ensures Unwipify(title).Some?
    ensures !StartsWith(Unwipify(title).value, WipPrefix) ==> Wipify(Unwipify(title).value) == Some(title)
    ensures StartsWith(Unwipify(title).value, WipPrefix) ==> Wipify(Unwipify(title).value) == None
  {
  }

  /** A title already marked is not marked again, and a title that
      `unwipify` leaves alone can always be marked. */
  lemma WipifyIsNotRepeated(title: string)
    ensures Wipify(title).Some? ==> Wipify(Wipify(title).value) == None
    ensures Unwipify(title) == None ==> Wipify(title).Some?
  {
  }

  /** `args.mr_title` is honoured only when it is a non-empty string. */
  predicate HasExplicitTitle(mrTitle: Option<string>) {
    mrTitle.Some? && mrTitle.value != ""
  }

  /** `handle_title`: the title to send with the update, from the command-line
      options and the merge request's current title. An explicit title wins,
      then `--ready`, then `--wip`; with none of them the result is `None`. */
  function HandleTitle(mrTitle: Option<string>, ready: bool, wip: bool, current: string): (r: Option<string>)
    ensures HasExplicitTitle(mrTitle) ==> r == mrTitle
    ensures !HasExplicitTitle(mrTitle) && ready ==>
              (r.Some? <==> StartsWith(current, WipPrefix)) && (r.Some? ==> WipPrefix + r.value == current)
    ensures !HasExplicitTitle(mrTitle) && !ready && wip ==>
              (r.Some? <==> !StartsWith(current, WipPrefix)) && (r.Some? ==> r.value == WipPrefix + current)
    ensures !HasExplicitTitle(mrTitle) && !ready && !wip ==> r == None
  {
    if HasExplicitTitle(mrTitle) then mrTitle
    else if ready then Unwipify(current)
    else if wip then Wipify(current)
    else None
  }

  /** The only titles `handle_title` can produce: the explicit one, or the
      current title with the marker added or removed. */
  lemma HandleTitleOrigins(mrTitle: Option<string>, ready: bool, wip: bool, current: string)
    ensures var r := HandleTitle(mrTitle, ready, wip, current);
            r.Some? ==> r == mrTitle || WipPrefix + r.value == current || r.value == WipPrefix + current
    ensures var r := HandleTitle(mrTitle, ready, wip, current);
            r.Some? && r != mrTitle ==> ready || wip
  {
  }

  /** `--ready` on "WIP: add feature" sends "add feature"; an empty `--title`
      does not override it. */
  lemma ReadyStripsMarkerExample()
    ensures HandleTitle(None, true, false, "WIP: add feature") == Some("add feature")
    ensures HandleTitle(Some(""), true, true, "WIP: add feature") == Some("add feature")
  {
    assert StartsWith("WIP: add feature", WipPrefix);
    assert "WIP: add feature"[5..] == "add feature";
  }
}
