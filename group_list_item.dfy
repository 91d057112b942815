/**
 * The data derivations and event handlers of one row of the group list: the
 * "New"/"Active" chip, the "Created"/"Updated" caption with its relative
 * activity text, the visibility button's label, the click guard, and the
 * toggle handler that starts a collapse and reports the toggle later.
 *
 * The relative-time formatter is a parameter: a function from an instant in
 * milliseconds to the text it produces, or `None` where it throws. The clock
 * it reads is part of that function.
 */
module GroupListItem {
  import opened Wrappers

  /** A group as the row receives it. Timestamps are integer seconds since the
      epoch; `updatedAt` may be absent. */
  datatype Group = Group(id: string, name: string, createdAt: int, updatedAt: Option<int>)

  /** The text the row shows when the formatter fails. */
  const Fallback: string := "recently"

  /** `isNewGroup`: a strict comparison, so an absent `updatedAt` never
      equals `createdAt`. */
  predicate IsNewGroup(g: Group)
    ensures IsNewGroup(g) ==> g.updatedAt.Some?
    ensures IsNewGroup(g) ==> ActivityInstantMillis(g) == 1000 * g.createdAt
  {
    g.updatedAt == Some(g.createdAt)
  }

  /** A group without an update time is not new; it is shown as "Active",
      "Updated". */
  lemma AbsentUpdateIsNotNew(g: Group)
    requires g.updatedAt.None?
    ensures !IsNewGroup(g)
    ensures ChipLabel(g) == "Active" && CaptionPrefix(g) == "Updated"
  {
  }

  /** The instant the activity text describes, in milliseconds: `updatedAt`
      when present and nonzero, otherwise `createdAt`, times 1000. */
  function ActivityInstantMillis(g: Group): (ms: int)
    ensures ms % 1000 == 0
    ensures g.updatedAt.Some? && g.updatedAt.value != 0 ==> ms == 1000 * g.updatedAt.value
    ensures g.updatedAt.None? || g.updatedAt.value == 0 ==> ms == 1000 * g.createdAt
  {
    var seconds := match g.updatedAt
      case Some(u) => if u != 0 then u else g.createdAt
      case None => g.createdAt;
    seconds * 1000
  }

  /** The later of the two timestamps (the creation time when there is no
      update time). */
  function Latest(g: Group): int
  {
    match g.updatedAt
    case Some(u) => if u >= g.createdAt then u else g.createdAt
    case None => g.createdAt
  }

  /** For groups whose timestamps are consistent (not before the epoch, an
      update never before the creation), the activity instant is the latest
      timestamp. */
  lemma ActivityIsLatestWhenConsistent(g: Group)
    requires 0 <= g.createdAt
    requires g.updatedAt.Some? ==> g.updatedAt.value >= g.createdAt
    ensures ActivityInstantMillis(g) == 1000 * Latest(g)
  {
  }

  /** In general it is not: an update time earlier than the creation time is
      still the one shown. */
  lemma ActivityIsNotLatestInGeneral()
    ensures ActivityInstantMillis(Group("g", "n", 200, Some(100))) == 100000
    ensures Latest(Group("g", "n", 200, Some(100))) == 200
  {
  }

  /** `getLastActivityText`: the formatter's text for the activity instant,
      or the fixed fallback when the formatter fails; never an error. */
  function LastActivityText(g: Group, format: int -> Option<string>): (text: string)
    ensures format(ActivityInstantMillis(g)).Some? ==> text == format(ActivityInstantMillis(g)).value
    ensures format(ActivityInstantMillis(g)).None? ==> text == Fallback
  {
    match format(ActivityInstantMillis(g))
    case Some(timeAgo) => timeAgo
    case None => Fallback
  }

  /** The chip's label: "New" for a new group, "Active" otherwise. */
  function ChipLabel(g: Group): (chip: string)
    ensures chip == "New" <==> IsNewGroup(g)
    ensures chip == "Active" <==> !IsNewGroup(g)
  {
    if IsNewGroup(g) then "New" else "Active"
  }

  /** The word before the activity text: "Created" for a new group,
      "Updated" otherwise. */
  function CaptionPrefix(g: Group): (prefix: string)
    ensures prefix == "Created" <==> IsNewGroup(g)
    ensures prefix == "Updated" <==> !IsNewGroup(g)
  {
    if IsNewGroup(g) then "Created" else "Updated"
  }

  /** The chip and the caption never disagree: the chip says "New" exactly
      when the caption says "Created", and "Active" exactly when it says
      "Updated". */
  lemma LabelsFollowNewness(g: Group)
    ensures ChipLabel(g) == "New" <==> CaptionPrefix(g) == "Created"
    ensures ChipLabel(g) == "Active" <==> CaptionPrefix(g) == "Updated"
  {
  }

  /** The visibility button's accessible label. */
  function ToggleAriaLabel(isHidden: bool): (aria: string)
    ensures aria == "Show group" <==> isHidden
    ensures aria == "Hide group" <==> !isHidden
  {
    if isHidden then "Show group" else "Hide group"
  }

  /** The route a click on the row leads to. */
  function GroupRoute(id: string): (route: string)
    ensures |route| == 7 + |id|
    ensures route[..7] == "/group/" && route[7..] == id
  {
    "/group/" + id
  }

  /** Whether the activity line (chip and caption) has anything to show: one
      of the timestamps is nonzero, which is exactly when the activity
      instant is not the epoch. */
  predicate HasActivity(g: Group)
    ensures HasActivity(g) <==> ActivityInstantMillis(g) != 0
  {
    g.createdAt != 0 || (g.updatedAt.Some? && g.updatedAt.value != 0)
  }

  /** The chip and the caption of the activity line. */
  datatype ActivityLine = ActivityLine(chip: string, caption: string)

  /** The activity line as intended: present exactly when a timestamp is
      nonzero, with the chip and caption agreeing on whether the group is
      new and the caption ending with the activity text. */
  function ActivityLineOf(g: Group, format: int -> Option<string>): (r: Option<ActivityLine>)
    ensures r.Some? <==> HasActivity(g)
    ensures r.Some? ==> (r.value.chip == "New" <==> IsNewGroup(g))
    ensures r.Some? ==> r.value.caption == CaptionPrefix(g) + " " + LastActivityText(g, format)
  {
    if HasActivity(g) then
      Some(ActivityLine(ChipLabel(g), CaptionPrefix(g) + " " + LastActivityText(g, format)))
    else
      None
  }

  /** What a JSX child renders: nothing (`undefined`, `false`), a bare text
      (a number renders as its digits), or the activity line. */
  datatype Rendered = Nothing | StrayText(text: string) | Line(line: ActivityLine)

  /** The activity line as written: `(created_at || updated_at) && <line>`.
      When `createdAt` is 0 the guard's value is `updatedAt` itself; an
      absent one renders nothing, but a 0 renders the text "0". */
  function ActivityLineAsWritten(g: Group, format: int -> Option<string>): (r: Rendered)
    ensures r.Line? <==> HasActivity(g)
    ensures r.StrayText? <==> g.createdAt == 0 && g.updatedAt == Some(0)
    ensures r.StrayText? ==> r.text == "0"
  {
    if g.createdAt != 0 then
      Line(ActivityLine(ChipLabel(g), CaptionPrefix(g) + " " + LastActivityText(g, format)))
    else
      match g.updatedAt
      case None => Nothing
      case Some(u) =>
        if u != 0 then Line(ActivityLine(ChipLabel(g), CaptionPrefix(g) + " " + LastActivityText(g, format)))
        else StrayText("0")
  }

  /** The intended line, as a rendered child. */
  function AsRendered(line: Option<ActivityLine>): Rendered
  {
    match line
    case Some(l) => Line(l)
    case None => Nothing
  }

  /** The code as written renders the intended line except for a group whose
      timestamps are both 0, where it renders a stray "0". */
  lemma AsWrittenDiffersOnlyOnZeroTimestamps(g: Group, format: int -> Option<string>)
    ensures !(g.createdAt == 0 && g.updatedAt == Some(0)) ==>
              ActivityLineAsWritten(g, format) == AsRendered(ActivityLineOf(g, format))
    ensures g.createdAt == 0 && g.updatedAt == Some(0) ==>
              ActivityLineAsWritten(g, format) == StrayText("0") && ActivityLineOf(g, format).None?
  {
  }

  /** A concrete instance: a group created and updated at instant 0. */
  lemma StrayZeroForEpochGroup(format: int -> Option<string>)
    ensures ActivityLineAsWritten(Group("g", "n", 0, Some(0)), format) == StrayText("0")
    ensures AsRendered(ActivityLineOf(Group("g", "n", 0, Some(0)), format)) == Nothing
  {
  }

  /**
   * One mounted row. `group` and `isHidden` are its props; `isAnimating` its
   * local state. `pending` holds the deferred callbacks scheduled and not yet
   * fired, each with the group id it captured; `toggleRequests` the ids passed
   * to `onToggleVisibility`, in call order. The ghost `clicks` records every
   * toggle click, so that `Valid` can say each click is reported exactly once,
   * in order.
   */
  class GroupRow {
    var group: Group
    var isHidden: bool
    var isAnimating: bool
    var pending: seq<string>
    var toggleRequests: seq<string>
    ghost var clicks: seq<string>

    ghost predicate Valid()
      reads this
    {
      clicks == toggleRequests + pending
    }

    constructor (group: Group, isHidden: bool)
      ensures Valid()
      ensures this.group == group && this.isHidden == isHidden
      ensures !isAnimating && pending == [] && toggleRequests == [] && clicks == []
    {
      this.group := group;
      this.isHidden := isHidden;
      isAnimating := false;
      pending := [];
      toggleRequests := [];
      clicks := [];
    }

    /** A re-render with new props; local state and scheduled callbacks stay. */
    method Rerender(group: Group, isHidden: bool)
      requires Valid()
      modifies this`group, this`isHidden
      ensures Valid()
      ensures this.group == group && this.isHidden == isHidden
    {
      this.group := group;
      this.isHidden := isHidden;
    }

    /** The row stays expanded while it is not animating. */
    predicate Expanded()
      reads this
    {
      !isAnimating
    }

    /** The clickable area is disabled while the group is hidden. */
    predicate ActionAreaDisabled()
      reads this
    {
      isHidden
    }

    /** `handleGroupClick`: the navigation it issues, if any. */
    method HandleGroupClick() returns (target: Option<string>)
      ensures target.Some? <==> !isHidden
      ensures target.None? <==> ActionAreaDisabled()
      ensures target.Some? ==> target.value == GroupRoute(group.id)
    {
      if !isHidden {
        target := Some(GroupRoute(group.id));
      } else {
        target := None;
      }
    }

    /** `handleToggleVisibility`: start the collapse and schedule the callback,
        which captures the current group id. */
    method HandleToggleVisibility()
      requires Valid()
      modifies this`isAnimating, this`pending, this`clicks
      ensures Valid()
      ensures isAnimating && !Expanded()
      ensures pending == old(pending) + [group.id]
      ensures clicks == old(clicks) + [group.id]
    {
      isAnimating := true;
      pending := pending + [group.id];
      clicks := clicks + [group.id];
    }

    /** The oldest scheduled callback fires: it reports its id to
        `onToggleVisibility` once, then ends the animation. */
    method FireDeferred()
      requires Valid()
      requires pending != []
      modifies this`isAnimating, this`pending, this`toggleRequests
      ensures Valid()
      ensures toggleRequests == old(toggleRequests) + [old(pending)[0]]
      ensures pending == old(pending)[1..]
      ensures !isAnimating && Expanded()
    {
      var id := pending[0];
      toggleRequests := toggleRequests + [id];
      pending := pending[1..];
      isAnimating := false;
    }
  }

  /** Two quick clicks on the same row: both are reported, in order, but the
      first callback already ends the animation while the second is still
      pending. */
  method DoubleClickToggle(g: Group, isHidden: bool)
    returns (expandedWhilePending: bool, requests: seq<string>)
    ensures expandedWhilePending
    ensures requests == [g.id, g.id]
  {
    var row := new GroupRow(g, isHidden);
    row.HandleToggleVisibility();
    row.HandleToggleVisibility();
    row.FireDeferred();
    expandedWhilePending := row.Expanded() && row.pending != [];
    row.FireDeferred();
    requests := row.toggleRequests;
  }
}
