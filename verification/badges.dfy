/**
 The status badge shown in the last column of the task table: a span whose
 CSS class is chosen from the task's status label, and whose visible text is
 the escaped status itself.
 */
module Badges {
  import opened Wrappers
  import opened Escaping

  /** The four status labels the table knows (compared exactly, as `switch` does). */
  const Requested := "依頼中"
  const InProgress := "作業中"
  const Done := "作業完了"
  const Confirmed := "確認完了"

  predicate IsKnownStatus(status: Option<string>) {
    status == Some(Requested) || status == Some(InProgress)
    || status == Some(Done) || status == Some(Confirmed)
  }

  /**
   The CSS class for a status: each known label has its own class, and any
   other value, `null` included, falls back to `status-default`.
   */
  function StatusClass(status: Option<string>): (cls: string)
    ensures cls == "status-requested" <==> status == Some(Requested)
    ensures cls == "status-inprogress" <==> status == Some(InProgress)
    ensures cls == "status-done" <==> status == Some(Done)
    ensures cls == "status-confirmed" <==> status == Some(Confirmed)
    ensures cls == "status-default" <==> !IsKnownStatus(status)
  {
    if status == Some(Requested) then "status-requested"
    else if status == Some(InProgress) then "status-inprogress"
    else if status == Some(Done) then "status-done"
    else if status == Some(Confirmed) then "status-confirmed"
    else "status-default"
  }

  function BadgeOpen(cls: string): string {
    "<span class=\"status-badge " + cls + "\">"
  }

  const BadgeClose := "</span>"

  /** The text between a badge's tags, given the class its opening tag carries. */
  function BadgeText(b: string, cls: string): string
    requires |BadgeOpen(cls)| + |BadgeClose| <= |b|
  {
    b[|BadgeOpen(cls)|..|b| - |BadgeClose|]
  }

  /**
   The badge markup: the opening tag carries the status's class, the text
   between the tags is the escaped status, and the closing tag ends it.
   */
  function StatusBadge(status: Option<string>): (b: string)
    ensures var open := BadgeOpen(StatusClass(status));
      && |open| + |BadgeClose| <= |b|
      && b[..|open|] == open
      && b[|b| - |BadgeClose|..] == BadgeClose
      && BadgeText(b, StatusClass(status)) == EscapeHTML(status)
  {
    var open := BadgeOpen(StatusClass(status));
    var text := EscapeHTML(status);
    Framed(open, text, BadgeClose);
    open + text + BadgeClose
  }

  /** The three parts of `a + m + z` can be cut back out by their lengths. */
  lemma Framed(a: string, m: string, z: string)
    ensures var b := a + m + z;
      && b[..|a|] == a
      && b[|b| - |z|..] == z
      && b[|a|..|b| - |z|] == m
  {
    var b := a + m + z;
    assert b[..|a|] == a;
    assert b[|b| - |z|..] == z;
    assert b[|a|..|b| - |z|] == m;
  }

  /**
   A status cannot break out of its badge: the text between the tags holds
   no markup character, so it cannot end the span early or add attributes,
   and decoding its entities gives the status as stored (null as nothing).
   */
  lemma BadgeShowsStatus(status: Option<string>)
    ensures var b := StatusBadge(status);
      && NoMarkup(BadgeText(b, StatusClass(status)))
      && Unescape(BadgeText(b, StatusClass(status))) == status.GetOr("")
  {
    EscapeHTMLSafe(status);
  }
}
