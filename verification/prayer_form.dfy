/** The prayer form: its starting state and its change handler, in which the
    `answered` checkbox drags `answeredDate` along. */
module PrayerForm {
  import opened Wrappers
  import opened Entities

  /** A blank prayer, given a fresh id and today's `YYYY-MM-DD` date. */
  function NewPrayer(id: string, today: string): (r: PrayerItem)
    ensures r.id == id && r.prayerDate == today
    ensures r.title == "" && r.person == "" && r.content == "" && r.godsResponse == Some("")
    ensures !r.answered && r.answeredDate.None?
    ensures r.likes == 0 && !r.liked && r.comments == []
  {
    PrayerItem(id, "", "", "", today, false, None, Some(""), 0, false, [])
  }

  /** `item || {...}`: editing starts from the stored prayer itself. */
  function InitialForm(item: Option<PrayerItem>, id: string, today: string): (r: PrayerItem)
    ensures item.Some? ==> r == item.value
    ensures item.None? ==> r == NewPrayer(id, today)
  {
    item.GetOr(NewPrayer(id, today))
  }

  /** One `onChange` event: a text input with its new value, or the checkbox. */
  datatype PrayerChange =
    | TitleInput(title: string)
    | PersonInput(person: string)
    | ContentInput(content: string)
    | ResponseInput(response: string)
    | DateInput(date: string)
    | AnsweredBox(checked: bool)

  /** `handleChange`: a text input sets its own field; the checkbox sets
      `answered` and, with it, `answeredDate` to today or to nothing. */
  function Change(f: PrayerItem, c: PrayerChange, today: string): (r: PrayerItem)
    ensures c.TitleInput? ==> r == f.(title := c.title)
    ensures c.PersonInput? ==> r == f.(person := c.person)
    ensures c.ContentInput? ==> r == f.(content := c.content)
    ensures c.ResponseInput? ==> r == f.(godsResponse := Some(c.response))
    ensures c.DateInput? ==> r == f.(prayerDate := c.date)
    ensures c.AnsweredBox? ==> r == f.(answered := c.checked, answeredDate := r.answeredDate)
    ensures c.AnsweredBox? ==> (r.answeredDate.Some? <==> c.checked)
    ensures c.AnsweredBox? && c.checked ==> r.answeredDate == Some(today)
  {
    match c
    case TitleInput(v) => f.(title := v)
    case PersonInput(v) => f.(person := v)
    case ContentInput(v) => f.(content := v)
    case ResponseInput(v) => f.(godsResponse := Some(v))
    case DateInput(v) => f.(prayerDate := v)
    case AnsweredBox(b) => f.(answered := b, answeredDate := if b then Some(today) else None)
  }

  /** `answeredDate` is set exactly when the prayer is answered. */
  predicate DateFollowsAnswer(f: PrayerItem) {
    f.answeredDate.Some? <==> f.answered
  }

  /** A sequence of change events, each handled in turn. */
  function ChangeAll(f: PrayerItem, cs: seq<PrayerChange>, today: string): PrayerItem
    decreases |cs|
  {
    if |cs| == 0 then f else ChangeAll(Change(f, cs[0], today), cs[1..], today)
  }

  /** The rule holds for a blank prayer and survives every change, so any
      newly written prayer keeps it. */
  lemma {:induction false} ChangesKeepDateRule(f: PrayerItem, cs: seq<PrayerChange>, today: string)
    requires DateFollowsAnswer(f)
    ensures DateFollowsAnswer(ChangeAll(f, cs, today))
    decreases |cs|
  {
    if |cs| > 0 {
      ChangesKeepDateRule(Change(f, cs[0], today), cs[1..], today);
    }
  }

  /** After the checkbox has been touched the rule holds whatever the
      stored prayer looked like. */
  lemma {:induction false} CheckboxEstablishesDateRule(f: PrayerItem, b: bool, cs: seq<PrayerChange>, today: string)
    ensures DateFollowsAnswer(ChangeAll(f, [AnsweredBox(b)] + cs, today))
  {
    var s := [AnsweredBox(b)] + cs;
    assert s[0] == AnsweredBox(b) && s[1..] == cs;
    ChangesKeepDateRule(Change(f, AnsweredBox(b), today), cs, today);
  }

  /** A new prayer keeps the rule through any edits. */
  lemma NewPrayerKeepsDateRule(id: string, today: string, cs: seq<PrayerChange>)
    ensures DateFollowsAnswer(ChangeAll(NewPrayer(id, today), cs, today))
  {
    ChangesKeepDateRule(NewPrayer(id, today), cs, today);
  }
}
