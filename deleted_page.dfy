/**
 * The trash page: each deleted item with a countdown to its permanent deletion, and a
 * Restore button. The countdown is the number of whole days, rounded up, until a week
 * after the deletion, and never negative.
 */
module DeletedPage {

  import opened Wrappers
  import opened Store
  import Text
  import MediaCleanup

  /** `Math.ceil(a / b)` for a positive divisor. */
  function CeilDiv(a: int, b: int): (r: int)
    requires b > 0
    ensures (r - 1) * b < a <= r * b
  {
    -((-a) / b)
  }

  /** `getDaysUntilPermanentDelete`: `max(0, ceil((deletedAt + 7 days - now) / 1 day))`. */
  function DaysLeft(deletedAt: int, now: int): (r: nat)
    ensures r > 0 ==> (r - 1) * DayMs < deletedAt + MediaCleanup.GraceDays * DayMs - now <= r * DayMs
    ensures r == 0 ==> deletedAt + MediaCleanup.GraceDays * DayMs - now <= 0
  {
    var d := CeilDiv(deletedAt + MediaCleanup.GraceDays * DayMs - now, DayMs);
    if d > 0 then d else 0
  }

  /** The countdown is positive exactly while the week since deletion has not run out. */
  lemma DaysLeftPositive(deletedAt: int, now: int)
    ensures DaysLeft(deletedAt, now) > 0 <==> now < deletedAt + MediaCleanup.GraceDays * DayMs
  {
    var a := deletedAt + MediaCleanup.GraceDays * DayMs - now;
    var d := CeilDiv(a, DayMs);
    if a > 0 {
      assert d * DayMs >= a > 0;
    } else {
      assert (d - 1) * DayMs < a <= 0;
    }
  }

  /** A positive countdown is the week's remaining time in days, rounded up. */
  lemma DaysLeftRoundsUp(deletedAt: int, now: int)
    requires DaysLeft(deletedAt, now) > 0
    ensures (DaysLeft(deletedAt, now) - 1) * DayMs < deletedAt + MediaCleanup.GraceDays * DayMs - now
    ensures deletedAt + MediaCleanup.GraceDays * DayMs - now <= DaysLeft(deletedAt, now) * DayMs
  {
  }

  /** Once the deletion has happened, at most seven days are ever shown. */
  lemma DaysLeftAtMostAWeek(deletedAt: int, now: int)
    requires deletedAt <= now
    ensures DaysLeft(deletedAt, now) <= MediaCleanup.GraceDays
  {
    var a := deletedAt + MediaCleanup.GraceDays * DayMs - now;
    var d := CeilDiv(a, DayMs);
  }

  /** The countdown never goes up as time passes. */
  lemma DaysLeftMonotone(deletedAt: int, now: int, later: int)
    requires now <= later
    ensures DaysLeft(deletedAt, later) <= DaysLeft(deletedAt, now)
  {
    var a := deletedAt + MediaCleanup.GraceDays * DayMs - now;
    var b := deletedAt + MediaCleanup.GraceDays * DayMs - later;
    var x := CeilDiv(a, DayMs);
    var y := CeilDiv(b, DayMs);
  }

  /**
   * The page and the purge agree: an item the purge would remove shows no days left. The
   * converse fails at the exact end of the week, when the page already says "pending" and
   * the purge, whose cut-off is strict, still keeps the item.
   */
  lemma DueMeansNoDaysLeft(m: Media, now: int)
    requires MediaCleanup.DueForPurge(m, now)
    ensures DaysLeft(m.deletedAt.value, now) == 0
  {
    DaysLeftPositive(m.deletedAt.value, now);
  }

  lemma PendingAtTheEndOfTheWeek(m: Media, now: int)
    requires m.deletedAt == Some(now - MediaCleanup.GraceDays * DayMs)
    ensures DaysLeft(m.deletedAt.value, now) == 0 && !MediaCleanup.DueForPurge(m, now)
  {
    DaysLeftPositive(m.deletedAt.value, now);
  }

  const CountdownPrefix := "Will be permanently deleted in "
  const PendingLabel := "Pending permanent deletion"

  /** The countdown line: `…in N day` or `…in N days`, or the pending message at zero. */
  function CountdownLabel(days: nat): (r: string)
    ensures r == PendingLabel <==> days == 0
    ensures days > 0 ==> CountdownPrefix <= r
  {
    if days > 0 then CountdownPrefix + Text.NatToString(days) + " day" + (if days != 1 then "s" else "")
    else PendingLabel
  }

  /**
   * A positive countdown is written as the prefix, the number in decimal, then "day" for
   * one and "days" for more; the number can be read back from the text.
   */
  lemma CountdownReadsBack(days: nat)
    requires days > 0
    ensures
      var digits, line := Text.NatToString(days), CountdownLabel(days);
      |line| >= |CountdownPrefix| + |digits| &&
      line[..|CountdownPrefix|] == CountdownPrefix &&
      line[|CountdownPrefix|..|CountdownPrefix| + |digits|] == digits &&
      Text.DecimalValue(digits) == days &&
      line[|CountdownPrefix| + |digits|..] == (if days == 1 then " day" else " days")
  {
    var digits := Text.NatToString(days);
    Text.NatToStringValue(days);
    var tail := if days == 1 then " day" else " days";
    assert CountdownLabel(days) == CountdownPrefix + digits + tail;
  }

  /** One card as the page shows it: title and countdown line. */
  datatype Card = Card(title: string, countdown: string)

  datatype Panel = LoadingMessage | NoDeletedMedia | Cards(cards: seq<Card>)

  /** What the restore request answered. */
  datatype RestoreReply = Restored | Refused(error: Option<string>) | Unreachable

  const RestoreAlertPrefix := "Error restoring media: "

  /** `${error.error}` renders a missing message as "undefined". */
  function RestoreAlert(error: Option<string>): (r: string)
    ensures error.Some? ==> r == RestoreAlertPrefix + error.value
    ensures error.None? ==> r == RestoreAlertPrefix + "undefined"
  {
    RestoreAlertPrefix + error.GetOr("undefined")
  }

  const RestoreFailed := "Failed to restore media"

  class DeletedPageState {
    var media: seq<Media>
    var loading: bool

    constructor ()
      ensures media == [] && loading
    {
      media := [];
      loading := true;
    }

    /** One card per item, in order, each with its countdown at `now`. */
    function Shown(now: int): (p: Panel)
      reads this
      ensures loading <==> p == LoadingMessage
      ensures !loading && media == [] <==> p == NoDeletedMedia
      ensures p.Cards? ==> |p.cards| == |media|
      ensures p.Cards? ==> forall i :: 0 <= i < |media| ==>
        p.cards[i] == Card(media[i].title, CountdownLabel(DaysLeft(media[i].deletedAt.GetOr(0), now)))
    {
      if loading then LoadingMessage
      else if media == [] then NoDeletedMedia
      else
        var ms := media;
        Cards(seq(|ms|, i requires 0 <= i < |ms| =>
          Card(ms[i].title, CountdownLabel(DaysLeft(ms[i].deletedAt.GetOr(0), now)))))
    }

    /** `fetchDeletedMedia`: takes the list when the GET succeeded, and stops loading either way. */
    method FetchDeleted(reply: Option<seq<Media>>)
      modifies this
      ensures !loading
      ensures media == if reply.Some? then reply.value else old(media)
    {
      if reply.Some? {
        media := reply.value;
      }
      loading := false;
    }

    /**
     * `handleRestore`: after a successful restore the list is fetched again (`refetch` is
     * what that fetch gets) and nothing is alerted; otherwise the list stays and an alert
     * says why.
     */
    method HandleRestore(reply: RestoreReply, refetch: Option<seq<Media>>) returns (alert: Option<string>)
      modifies this
      ensures reply.Restored? ==> alert.None? && !loading
      ensures reply.Restored? ==> media == if refetch.Some? then refetch.value else old(media)
      ensures reply.Refused? ==> alert == Some(RestoreAlert(reply.error)) && unchanged(this)
      ensures reply.Unreachable? ==> alert == Some(RestoreFailed) && unchanged(this)
    {
      match reply {
        case Restored =>
          FetchDeleted(refetch);
          alert := None;
        case Refused(error) =>
          alert := Some(RestoreAlert(error));
        case Unreachable =>
          alert := Some(RestoreFailed);
      }
    }
  }
}
