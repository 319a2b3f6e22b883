/** Phase durations in whole microseconds, from clock readings in nanoseconds. */
module PhaseTrace {
  import opened Basics

  const U64_MAX: nat := 0xFFFF_FFFF_FFFF_FFFF

  datatype Mark = Mark(field: string, end: Option<int>)

  datatype Phase = Phase(field: string, start: int, end: int)

  function SaturatingSince(end: int, start: int): nat {
    if end < start then 0 else end - start
  }

  function Micros(nanos: nat): nat {
    if nanos / 1000 <= U64_MAX then nanos / 1000 else U64_MAX
  }

  /** The end of the last phase that ran, or the start of the run. */
  function Base(t0: int, marks: seq<Mark>): int {
    if marks == [] then t0
    else
      var last := marks[|marks| - 1];
      if last.end.Some? then last.end.value else Base(t0, marks[..|marks| - 1])
  }

  /** The phases that ran, each from where the one before it ended. */
  function Phases(t0: int, marks: seq<Mark>): seq<Phase> {
    if marks == [] then []
    else
      var init, last := marks[..|marks| - 1], marks[|marks| - 1];
      if last.end.None? then Phases(t0, init)
      else Phases(t0, init) + [Phase(last.field, Base(t0, init), last.end.value)]
  }

  function Length(phase: Phase): nat {
    Micros(SaturatingSince(phase.end, phase.start))
  }

  predicate IsLastOfField(phases: seq<Phase>, i: nat)
    requires i < |phases|
  {
    forall j | i < j < |phases| :: phases[j].field != phases[i].field
  }

  predicate ReportsPhase(fields: map<string, nat>, phase: Phase) {
    phase.field in fields && fields[phase.field] == Length(phase)
  }

  ghost predicate NamesThePhases(fields: map<string, nat>, phases: seq<Phase>) {
    forall f :: f in fields <==> exists p | p in phases :: p.field == f
  }

  /** The fields name exactly the phases that ran, and the last phase of a name decides its value. */
  ghost predicate Reports(fields: map<string, nat>, phases: seq<Phase>) {
    && NamesThePhases(fields, phases)
    && forall i: nat | i < |phases| && IsLastOfField(phases, i) :: ReportsPhase(fields, phases[i])
  }

  method PhaseFields(t0: int, marks: seq<Mark>) returns (fields: map<string, nat>)
    ensures Reports(fields, Phases(t0, marks))
  {
    fields := map[];
    var base := t0;
    for i := 0 to |marks|
      invariant base == Base(t0, marks[..i])
      invariant Reports(fields, Phases(t0, marks[..i]))
    {
      var mark := marks[i];
      assert marks[..i + 1][..i] == marks[..i];
      if mark.end.Some? {
        ReportsNext(fields, Phases(t0, marks[..i]), Phase(mark.field, base, mark.end.value));
        fields := fields[mark.field := Micros(SaturatingSince(mark.end.value, base))];
        base := mark.end.value;
      }
    }
    assert marks[..|marks|] == marks;
  }

  lemma ReportsNext(fields: map<string, nat>, phases: seq<Phase>, next: Phase)
    requires Reports(fields, phases)
    ensures Reports(fields[next.field := Length(next)], phases + [next])
  {
    var more, all := fields[next.field := Length(next)], phases + [next];
    NamesNext(fields, phases, next);
    forall i: nat | i < |all| && IsLastOfField(all, i) ensures ReportsPhase(more, all[i]) {
      if i < |phases| {
        assert all[|phases|].field != all[i].field;
        assert IsLastOfField(phases, i) by {
          assert forall j | i < j < |phases| :: phases[j] == all[j];
        }
        assert ReportsPhase(fields, phases[i]);
      }
    }
  }

  lemma NamesNext(fields: map<string, nat>, phases: seq<Phase>, next: Phase)
    requires NamesThePhases(fields, phases)
    ensures NamesThePhases(fields[next.field := Length(next)], phases + [next])
  {
    var more, all := fields[next.field := Length(next)], phases + [next];
    forall f ensures f in more <==> exists p | p in all :: p.field == f {
      if f in more {
        if f == next.field {
          assert next in all;
        } else {
          var p :| p in phases && p.field == f;
          assert p in all;
        }
      }
    }
  }

  // ---- The phases add up ----

  ghost predicate InOrder(t0: int, marks: seq<Mark>) {
    forall p | p in Phases(t0, marks) :: p.start <= p.end
  }

  ghost predicate DistinctFields(phases: seq<Phase>) {
    forall i, j | 0 <= i < j < |phases| :: phases[i].field != phases[j].field
  }

  /** The sum of the reported values, one for each phase. */
  function Total(fields: map<string, nat>, phases: seq<Phase>): nat
    requires forall p | p in phases :: p.field in fields
  {
    if phases == [] then 0
    else
      assert forall p | p in phases[..|phases| - 1] :: p in phases;
      Total(fields, phases[..|phases| - 1]) + fields[phases[|phases| - 1].field]
  }

  function LengthSum(phases: seq<Phase>): nat {
    if phases == [] then 0 else LengthSum(phases[..|phases| - 1]) + Length(phases[|phases| - 1])
  }

  lemma {:induction false} TotalIsLengthSum(fields: map<string, nat>, phases: seq<Phase>)
    requires forall p | p in phases :: p.field in fields && fields[p.field] == Length(p)
    ensures Total(fields, phases) == LengthSum(phases)
  {
    if phases != [] {
      assert forall p | p in phases[..|phases| - 1] :: p in phases;
      TotalIsLengthSum(fields, phases[..|phases| - 1]);
    }
  }

  lemma InOrderBefore(t0: int, marks: seq<Mark>)
    requires InOrder(t0, marks) && marks != []
    ensures InOrder(t0, marks[..|marks| - 1])
  {
    forall p | p in Phases(t0, marks[..|marks| - 1]) ensures p.start <= p.end {
      assert p in Phases(t0, marks);
    }
  }

  lemma LengthBounds(phase: Phase)
    requires phase.start <= phase.end
    ensures 1000 * Length(phase) <= phase.end - phase.start
    ensures (phase.end - phase.start) / 1000 <= U64_MAX ==>
              phase.end - phase.start == 1000 * Length(phase) + (phase.end - phase.start) % 1000
  {
  }

  /** Cutting each phase to whole microseconds loses under one microsecond a phase. */
  lemma {:induction false} LengthsAddUp(t0: int, marks: seq<Mark>)
    requires InOrder(t0, marks)
    ensures var span := Base(t0, marks) - t0;
            && span >= 0
            && 1000 * LengthSum(Phases(t0, marks)) <= span
            && (span / 1000 <= U64_MAX ==> span <= 1000 * LengthSum(Phases(t0, marks)) + 999 * |Phases(t0, marks)|)
    decreases |marks|
  {
    if marks != [] {
      var init, last := marks[..|marks| - 1], marks[|marks| - 1];
      InOrderBefore(t0, marks);
      LengthsAddUp(t0, init);
      if last.end.Some? {
        var before, next := Phases(t0, init), Phase(last.field, Base(t0, init), last.end.value);
        assert Phases(t0, marks) == before + [next];
        assert next in Phases(t0, marks);
        assert (before + [next])[..|before|] == before;
        LengthBounds(next);
        assert LengthSum(Phases(t0, marks)) == LengthSum(before) + Length(next);
      }
    }
  }

  /** With the marks in order and their names distinct, the reported microseconds of `k` phases total at
      most the whole span, and at most `k - 1` less. Where every phase lasts whole microseconds, they
      total the span. */
  lemma PhasesAddUp(t0: int, marks: seq<Mark>, fields: map<string, nat>)
    requires InOrder(t0, marks) && DistinctFields(Phases(t0, marks)) && Phases(t0, marks) != []
    requires Reports(fields, Phases(t0, marks))
    ensures forall p | p in Phases(t0, marks) :: p.field in fields
    ensures |fields| == |Phases(t0, marks)|
    ensures var span, k, total := Base(t0, marks) - t0, |Phases(t0, marks)|, Total(fields, Phases(t0, marks));
            && total <= span / 1000
            && (span / 1000 <= U64_MAX ==> span / 1000 - (k - 1) <= total)
            && (span / 1000 <= U64_MAX && (forall p | p in Phases(t0, marks) :: (p.end - p.start) % 1000 == 0) ==>
                  1000 * total == span)
  {
    var phases := Phases(t0, marks);
    forall p | p in phases ensures p.field in fields && fields[p.field] == Length(p) {
      var i: nat :| i < |phases| && phases[i] == p;
      assert IsLastOfField(phases, i) && ReportsPhase(fields, phases[i]);
    }
    TotalIsLengthSum(fields, phases);
    LengthsAddUp(t0, marks);
    FieldCount(fields, phases);
    if forall p | p in phases :: (p.end - p.start) % 1000 == 0 {
      WholeLengthsAddUp(t0, marks);
    }
  }

  lemma {:induction false} WholeLengthsAddUp(t0: int, marks: seq<Mark>)
    requires InOrder(t0, marks)
    requires forall p | p in Phases(t0, marks) :: (p.end - p.start) % 1000 == 0
    ensures (Base(t0, marks) - t0) / 1000 <= U64_MAX ==> 1000 * LengthSum(Phases(t0, marks)) == Base(t0, marks) - t0
    decreases |marks|
  {
    if marks != [] {
      var init, last := marks[..|marks| - 1], marks[|marks| - 1];
      InOrderBefore(t0, marks);
      assert forall p | p in Phases(t0, init) :: p in Phases(t0, marks);
      WholeLengthsAddUp(t0, init);
      LengthsAddUp(t0, init);
      if last.end.Some? {
        var before, next := Phases(t0, init), Phase(last.field, Base(t0, init), last.end.value);
        assert next in Phases(t0, marks);
        assert (before + [next])[..|before|] == before;
        LengthBounds(next);
        assert LengthSum(Phases(t0, marks)) == LengthSum(before) + Length(next);
      }
    }
  }

  lemma {:induction false} FieldCount(fields: map<string, nat>, phases: seq<Phase>)
    requires DistinctFields(phases) && NamesThePhases(fields, phases)
    ensures |fields| == |phases|
    decreases |phases|
  {
    if phases == [] {
      assert fields.Keys == {};
    } else {
      var init, last := phases[..|phases| - 1], phases[|phases| - 1];
      NamesBefore(fields, init, last, phases);
      FieldCount(fields - {last.field}, init);
      OneLess(fields, last.field);
    }
  }

  lemma OneLess(fields: map<string, nat>, field: string)
    requires field in fields
    ensures |fields| == |fields - {field}| + 1
  {
    assert fields.Keys == (fields - {field}).Keys + {field};
  }

  lemma NamesBefore(fields: map<string, nat>, init: seq<Phase>, last: Phase, phases: seq<Phase>)
    requires phases == init + [last] && DistinctFields(phases) && NamesThePhases(fields, phases)
    ensures NamesThePhases(fields - {last.field}, init) && last.field in fields
  {
    assert last in phases;
    forall i | 0 <= i < |init| ensures init[i].field != last.field {
      assert phases[i] == init[i] && phases[|init|] == last;
    }
    forall f ensures f in fields - {last.field} <==> exists p | p in init :: p.field == f {
      if p :| p in init && p.field == f {
        assert p in phases;
      }
    }
  }

  /** A phase that ends before it starts lasts 0, and a length stops at 2^64 - 1 microseconds. */
  lemma LengthExactly(phase: Phase, micros: nat, rest: nat)
    requires rest < 1000 && phase.end - phase.start == 1000 * micros + rest
    ensures Length(phase) == if micros < 18446744073709551616 then micros else 18446744073709551615
    ensures Length(Phase(phase.field, phase.end, phase.start)) == 0
  {
  }
}
