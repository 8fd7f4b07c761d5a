/**
 * The broadcast schedule (app/api/schedule/route.ts, `GET`): every stored
 * message gets an evenly spaced slot of a repeating cycle. Times are in
 * milliseconds; `now` stands for `Date.now()`.
 */
module Schedule {
  import opened Wrappers
  import Store

  const MessageInterval: nat := 5000
  const MessageDuration: nat := 4000
  const ScheduleError: string := "Ошибка при получении расписания"

  /** One slot: `{id, text, duration, showTime, position}`. */
  datatype Entry = Entry(id: string, text: string, duration: nat, showTime: nat, position: nat)

  /** The JSON body; an empty store gives a body without the interval and duration fields. */
  datatype Body =
    | Cycle(schedule: seq<Entry>, totalMessages: nat, cycleDuration: nat,
            messageInterval: Option<nat>, messageDuration: Option<nat>, serverTime: int)
    | Failure(error: string)

  datatype Reply = Reply(status: nat, body: Body)

  /** Slots never overlap and all fit inside the cycle of `n` intervals. */
  ghost predicate WellSpaced(schedule: seq<Entry>, cycleDuration: nat) {
    (forall i, j :: 0 <= i < j < |schedule| ==>
       schedule[i].showTime + schedule[i].duration < schedule[j].showTime) &&
    (forall i :: 0 <= i < |schedule| ==> schedule[i].showTime + schedule[i].duration < cycleDuration)
  }

  /** `messages.map((message, index) => ...)`. */
  function BuildSchedule(messages: seq<Store.Message>): (schedule: seq<Entry>)
    ensures |schedule| == |messages|
    ensures WellSpaced(schedule, |messages| * MessageInterval)
  {
    seq(|messages|, i requires 0 <= i < |messages| =>
      Entry(messages[i].id, messages[i].text, MessageDuration, i * MessageInterval, i))
  }

  /** `GET /api/schedule`: `fetched` is the store's list, or `None` when fetching it threw. */
  function Get(fetched: Option<seq<Store.Message>>, now: int): (r: Reply)
    ensures r.status == 200 <==> fetched.Some?
    ensures fetched.None? ==> r == Reply(500, Failure(ScheduleError))
  {
    match fetched
    case None => Reply(500, Failure(ScheduleError))
    case Some(messages) =>
      if |messages| == 0 then
        Reply(200, Cycle([], 0, 0, None, None, now))
      else
        var schedule := BuildSchedule(messages);
        var cycleDuration := |messages| * MessageInterval;
        Reply(200, Cycle(schedule, |messages|, cycleDuration, Some(MessageInterval), Some(MessageDuration), now))
  }

  /** An empty store gives an empty schedule of an empty cycle. */
  lemma EmptySchedule(now: int)
    ensures Get(Some([]), now) == Reply(200, Cycle([], 0, 0, None, None, now))
  {
  }

  /** Entry i copies message i's id and text and sits at i intervals into the cycle for 4 s. */
  lemma ScheduleEntries(messages: seq<Store.Message>, now: int)
    requires messages != []
    ensures var r := Get(Some(messages), now);
      && r.body.Cycle?
      && r.body.totalMessages == |messages|
      && r.body.cycleDuration == |messages| * MessageInterval
      && |r.body.schedule| == |messages|
      && forall i :: 0 <= i < |messages| ==>
           var e := r.body.schedule[i];
           e.id == messages[i].id && e.text == messages[i].text &&
           e.showTime == i * MessageInterval && e.position == i && e.duration == MessageDuration
  {
  }

  /** Show times strictly increase along the schedule. */
  lemma ShowTimesIncrease(messages: seq<Store.Message>, i: nat, j: nat)
    requires i < j < |messages|
    ensures BuildSchedule(messages)[i].showTime < BuildSchedule(messages)[j].showTime
  {
  }
}
