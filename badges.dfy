/**
 * The three lookup tables of src/lib/utils.ts: Tailwind badge classes for a
 * difficulty and for a progress status, and an icon for a resource type.
 * Each is total: a key the table does not list falls to a default.
 */
module Badges {
  import opened Wrappers

  const GreenBadge := "bg-green-100 text-green-800"
  const YellowBadge := "bg-yellow-100 text-yellow-800"
  const RedBadge := "bg-red-100 text-red-800"
  const BlueBadge := "bg-blue-100 text-blue-800"
  const GrayBadge := "bg-gray-100 text-gray-800"

  const DocumentIcon := "\U{1F4C4}"
  const VideoIcon := "\U{1F3A5}"
  const HeadphonesIcon := "\U{1F3A7}"
  const BooksIcon := "\U{1F4DA}"
  const ClipboardIcon := "\U{1F4CB}"
  const GameIcon := "\U{1F3AE}"

  /** utils.ts getDifficultyColor; None stands for an absent (undefined) difficulty. */
  function DifficultyColor(difficulty: Option<string>): (r: string)
    ensures r == GrayBadge <==>
      difficulty !in {Some("beginner"), Some("intermediate"), Some("advanced")}
    ensures difficulty == Some("beginner") <==> r == GreenBadge
    ensures difficulty == Some("intermediate") <==> r == YellowBadge
    ensures difficulty == Some("advanced") <==> r == RedBadge
  {
    match difficulty
    case Some(d) =>
      if d == "beginner" then GreenBadge
      else if d == "intermediate" then YellowBadge
      else if d == "advanced" then RedBadge
      else GrayBadge
    case None => GrayBadge
  }

  /** utils.ts getResourceTypeIcon; an article and an unknown type share the document icon. */
  function ResourceTypeIcon(resourceType: string): (r: string)
    ensures r == DocumentIcon <==>
      resourceType !in {"video", "podcast", "book", "paper", "interactive"}
    ensures r in {DocumentIcon, VideoIcon, HeadphonesIcon, BooksIcon, ClipboardIcon, GameIcon}
    ensures resourceType == "video" <==> r == VideoIcon
    ensures resourceType == "podcast" <==> r == HeadphonesIcon
    ensures resourceType == "book" <==> r == BooksIcon
    ensures resourceType == "paper" <==> r == ClipboardIcon
    ensures resourceType == "interactive" <==> r == GameIcon
  {
    if resourceType == "article" then DocumentIcon
    else if resourceType == "video" then VideoIcon
    else if resourceType == "podcast" then HeadphonesIcon
    else if resourceType == "book" then BooksIcon
    else if resourceType == "paper" then ClipboardIcon
    else if resourceType == "interactive" then GameIcon
    else DocumentIcon
  }

  /** utils.ts getStatusColor. */
  function StatusColor(status: string): (r: string)
    ensures r == GreenBadge <==> status in {"completed", "mastered"}
    ensures r == BlueBadge <==> status == "in_progress"
    ensures r == RedBadge <==> status == "skipped"
    ensures r == GrayBadge <==> status !in {"completed", "mastered", "in_progress", "skipped"}
  {
    if status == "completed" || status == "mastered" then GreenBadge
    else if status == "in_progress" then BlueBadge
    else if status == "not_started" then GrayBadge
    else if status == "skipped" then RedBadge
    else GrayBadge
  }
}
