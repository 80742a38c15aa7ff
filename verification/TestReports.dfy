/** Choosing the most recently started of the stored test reports. */
module TestReports {
  import opened Wrappers

  datatype Report = Report(id: string, startedAt: string)
  /** What a report file holds: nothing readable, or a report with its own id. */
  datatype Stored = Absent | Broken | Holds(report: Report)

  /** String comparison by character. */
  predicate Greater(a: string, b: string) {
    a != "" && (b == "" || a[0] > b[0] || (a[0] == b[0] && Greater(a[1..], b[1..])))
  }

  /** Started later; of equal starts, the greater id. */
  predicate Later(a: Report, b: Report) {
    Greater(a.startedAt, b.startedAt) || (a.startedAt == b.startedAt && Greater(a.id, b.id))
  }

  lemma {:induction false} GreaterOrder(a: string, b: string, c: string)
    ensures !Greater(a, b) && !Greater(b, a) <==> a == b
    ensures !(Greater(a, b) && Greater(b, a))
    ensures Greater(a, b) && Greater(b, c) ==> Greater(a, c)
    decreases |a|
  {
    if a != "" && b != "" {
      GreaterOrder(a[1..], b[1..], if c == "" then "" else c[1..]);
      assert a == [a[0]] + a[1..] && b == [b[0]] + b[1..];
    }
  }

  /** The comparison is decided at the first place where the strings differ; a prefix is the lesser. */
  lemma {:induction false} GreaterExactly(a: string, b: string)
    ensures Greater(a, b) <==> exists k :: DecidedAt(a, b, k)
    decreases |a|
  {
    if a != "" && b != "" && a[0] == b[0] {
      GreaterExactly(a[1..], b[1..]);
      assert a == [a[0]] + a[1..] && b == [b[0]] + b[1..];
      if Greater(a, b) {
        var k :| DecidedAt(a[1..], b[1..], k);
        assert a[..k + 1] == [a[0]] + a[1..][..k] && b[..k + 1] == [b[0]] + b[1..][..k];
        assert DecidedAt(a, b, k + 1);
      } else {
        forall k ensures !DecidedAt(a, b, k) {
          if k > 0 && k < |a| && k <= |b| && a[..k] == b[..k] {
            assert a[1..][..k - 1] == a[..k][1..] == b[..k][1..] == b[1..][..k - 1];
            assert !DecidedAt(a[1..], b[1..], k - 1);
          }
        }
      }
    } else if a != "" {
      assert DecidedAt(a, b, 0) <==> Greater(a, b);
      forall k | k > 0 ensures !DecidedAt(a, b, k) {
        assert k < |a| && k <= |b| ==> a[..k][0] == a[0] && (b != "" ==> b[..k][0] == b[0]);
      }
    }
  }

  /** Equal before k, where a goes on with a greater character or b has ended. */
  predicate DecidedAt(a: string, b: string, k: int) {
    0 <= k < |a| && k <= |b| && a[..k] == b[..k] && (k < |b| ==> a[k] > b[k])
  }

  lemma LaterOrder(a: Report, b: Report, c: Report)
    ensures !Later(a, b) && !Later(b, a) <==> a == b
    ensures Later(a, b) && Later(b, c) ==> Later(a, c)
    ensures !Later(a, a)
  {
    GreaterOrder(a.startedAt, b.startedAt, c.startedAt);
    GreaterOrder(b.startedAt, c.startedAt, a.startedAt);
    GreaterOrder(a.id, b.id, c.id);
    GreaterOrder(b.id, c.id, a.id);
    GreaterOrder(a.startedAt, a.startedAt, a.startedAt);
    GreaterOrder(a.id, a.id, a.id);
  }

  /** Readable, and stored under its own id. */
  predicate Acceptable(name: string, stored: Stored) {
    stored.Holds? && stored.report.id + ".json" == name
  }

  datatype Results = Missing | Invalid | Recorded(report: Report)

  /** The other report was not started after this one and, of equal starts, has no greater id. */
  predicate NoneAfter(r: Report, other: Report) {
    || Greater(r.startedAt, other.startedAt)
    || (r.startedAt == other.startedAt && (r.id == other.id || Greater(r.id, other.id)))
  }

  /** `read` gives what each file holds. The recorded report is the one no other was started after, with
      the id deciding between equal starts, so it does not depend on the order of the names. */
  method ReadResults(run: Option<string>, stored: seq<string>, read: string -> Stored) returns (r: Results)
    ensures var names := if run.Some? then [run.value + ".json"] else stored;
            && (r == Missing <==> names == [] || (run.Some? && read(names[0]) == Absent))
            && (r == Invalid <==>
                exists i ::
                  0 <= i < |names| && !(run.Some? && read(names[i]) == Absent)
                  && (read(names[i]).Holds? ==> read(names[i]).report.id + ".json" != names[i]))
            && (r.Recorded? ==> exists i :: 0 <= i < |names| && read(names[i]) == Holds(r.report))
            && (r.Recorded? ==> forall i :: 0 <= i < |names| ==>
                read(names[i]).Holds? && NoneAfter(r.report, read(names[i]).report))
  {
    var names := if run.Some? then [run.value + ".json"] else stored;
    var latest: Option<Report> := None;
    for i := 0 to |names|
      invariant latest.None? <==> i == 0
      invariant forall j :: 0 <= j < i ==> Acceptable(names[j], read(names[j]))
      invariant latest.Some? ==> exists j :: 0 <= j < i && read(names[j]) == Holds(latest.value)
      invariant latest.Some? ==> forall j :: 0 <= j < i ==>
                read(names[j]).report == latest.value || Later(latest.value, read(names[j]).report)
    {
      var held := read(names[i]);
      if run.Some? && held == Absent {
        return Missing;
      }
      if !Acceptable(names[i], held) {
        return Invalid;
      }
      var candidate := held.report;
      if latest.Some? {
        LaterOrder(candidate, latest.value, candidate);
        forall j | 0 <= j < i ensures Later(candidate, latest.value) ==> Later(candidate, read(names[j]).report) {
          LaterOrder(candidate, latest.value, read(names[j]).report);
        }
      }
      if latest.None? || Later(candidate, latest.value) {
        latest := Some(candidate);
      }
      assert read(names[i]) == Holds(candidate);
    }
    if latest.None? {
      return Missing;
    }
    r := Recorded(latest.value);
  }
}
