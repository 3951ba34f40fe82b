/** The published match state and its last-write-wins update
    (src/output_handler.py). */
module Output {
  import opened Bytes
  import opened Parser
  import opened ClockText

  /** One penalty slot: an activity flag and the remaining time text. */
  datatype PenaltySlot = PenaltySlot(active: int, time: string)

  datatype TeamPenalties = TeamPenalties(player1: PenaltySlot, player2: PenaltySlot)

  datatype Penalties = Penalties(homeTeam: TeamPenalties, guestTeam: TeamPenalties)

  /** The clock is held as numbers; its published text is FormatTime(time). */
  datatype MatchClock = MatchClock(time: ClockTime, period: int)

  datatype MatchData = MatchData(score: Score, matchClock: MatchClock, penalties: Penalties)

  const IdleSlot: PenaltySlot := PenaltySlot(0, "00:00")

  /** The state built by the handler's constructor. */
  function InitialMatchData(): (m: MatchData)
    ensures m.score.home == 0 && m.score.guest == 0
    ensures m.matchClock.period == 1
    ensures 0 <= m.matchClock.time.minutes <= 99 && 0 <= m.matchClock.time.seconds <= 99
    ensures FormatTime(m.matchClock.time) == "00:00"
    ensures var p := m.penalties;
      p.homeTeam.player1.active == 0 && p.homeTeam.player1.time == "00:00" &&
      p.homeTeam.player2.active == 0 && p.homeTeam.player2.time == "00:00" &&
      p.guestTeam.player1.active == 0 && p.guestTeam.player1.time == "00:00" &&
      p.guestTeam.player2.active == 0 && p.guestTeam.player2.time == "00:00"
  {
    MatchData(
      Score(0, 0),
      MatchClock(ClockTime(0, 0), 1),
      Penalties(TeamPenalties(IdleSlot, IdleSlot), TeamPenalties(IdleSlot, IdleSlot)))
  }

  /** `_update_match_data` on values: the score is replaced wholesale, the
      time and the period are overwritten one by one, each only when the
      parsed message carries it. */
  function Merge(m: MatchData, p: Parsed): (r: MatchData)
    ensures r.penalties == m.penalties
  {
    var f := p.fields;
    var withScore := if f.score.Some? then m.(score := f.score.value) else m;
    var withTime := if f.time.Some? then withScore.(matchClock := withScore.matchClock.(time := f.time.value))
                    else withScore;
    if f.period.Some? then withTime.(matchClock := withTime.matchClock.(period := f.period.value))
    else withTime
  }

  /** Each field the message carries holds the message's value afterwards;
      every other field keeps its old value. */
  lemma MergeFields(m: MatchData, p: Parsed)
    ensures Merge(m, p).score == if p.fields.score.Some? then p.fields.score.value else m.score
    ensures Merge(m, p).matchClock.time == if p.fields.time.Some? then p.fields.time.value else m.matchClock.time
    ensures Merge(m, p).matchClock.period == if p.fields.period.Some? then p.fields.period.value else m.matchClock.period
    ensures Merge(m, p).penalties == m.penalties
  {
  }

  /** A message without score, time or period (penalties, unknown) leaves
      the state as it was. */
  lemma MergeWithoutFieldsIsIdentity(m: MatchData, p: Parsed)
    requires p.fields.score.None? && p.fields.time.None? && p.fields.period.None?
    ensures Merge(m, p) == m
  {
  }

  /** Applying the same message twice is the same as applying it once. */
  lemma MergeIdempotent(m: MatchData, p: Parsed)
    ensures Merge(Merge(m, p), p) == Merge(m, p)
  {
  }

  /** Last write wins: after p1 then p2, a field p2 carries holds p2's value,
      and a field only p1 carries holds p1's value. */
  lemma MergeLastWriteWins(m: MatchData, p1: Parsed, p2: Parsed)
    ensures var r := Merge(Merge(m, p1), p2);
      (p2.fields.score.Some? ==> r.score == p2.fields.score.value) &&
      (p2.fields.time.Some? ==> r.matchClock.time == p2.fields.time.value) &&
      (p2.fields.period.Some? ==> r.matchClock.period == p2.fields.period.value) &&
      (p2.fields.score.None? && p1.fields.score.Some? ==> r.score == p1.fields.score.value) &&
      (p2.fields.time.None? && p1.fields.time.Some? ==> r.matchClock.time == p1.fields.time.value) &&
      (p2.fields.period.None? && p1.fields.period.Some? ==> r.matchClock.period == p1.fields.period.value) &&
      r.penalties == m.penalties
  {
  }

  /** The handler object: `match_data` is its one mutable field. */
  class OutputHandler {
    var matchData: MatchData

    constructor ()
      ensures matchData == InitialMatchData()
    {
      matchData := InitialMatchData();
    }

    /** `_update_match_data`: overwrite the entries the message carries. */
    method UpdateMatchData(parsed: Parsed)
      modifies this
      ensures matchData == Merge(old(matchData), parsed)
      ensures matchData.penalties == old(matchData.penalties)
    {
      if parsed.fields.score.Some? {
        matchData := matchData.(score := parsed.fields.score.value);
      }
      if parsed.fields.time.Some? {
        matchData := matchData.(matchClock := matchData.matchClock.(time := parsed.fields.time.value));
      }
      if parsed.fields.period.Some? {
        matchData := matchData.(matchClock := matchData.matchClock.(period := parsed.fields.period.value));
      }
    }
  }
}
