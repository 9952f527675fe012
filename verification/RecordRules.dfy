/**
  What one attempt may do to the records of the log, whatever its callbacks do:
  the rules of the regions and of the checkpoint versions
  (crates/tsavorite/src/store.rs:332-337, 531-579, 643-661, 901-928). Nothing
  moves; below ReadOnly, and for a session of version v+1 in every record of
  version v, only the Sealed bit may change; new records lie above all others
  and carry the version of the session that wrote them.
 */
module RecordRules {
  import opened HybridLogs
  import opened Chains

  /** The session's version, where the checkpoint started, and ReadOnly when the attempt began. */
  datatype Rules = Rules(inNewVersion: bool, start: nat, readOnly: nat)

  predicate OfNewVersion<P>(rec: Record<P>, a: nat, start: nat) {
    rec.newVersion && start <= a
  }

  /** In-place writes are for the mutable region, and never from v+1 into v. */
  predicate MayOverwrite<P>(rec: Record<P>, a: nat, r: Rules) {
    r.readOnly <= a && (r.inNewVersion ==> OfNewVersion(rec, a, r.start))
  }

  predicate SamePlace<P>(rec: Record<P>, rec': Record<P>) {
    rec'.prev == rec.prev && rec'.key == rec.key && rec'.valid == rec.valid && rec'.newVersion == rec.newVersion
  }

  ghost predicate KeptAt<P>(before: Log<P>, after: Log<P>, a: nat, r: Rules)
    requires a in before
  {
    && a in after && SamePlace(before[a], after[a])
    && (!MayOverwrite(before[a], a, r) ==> SameOnDisk(after[a], before[a]))
  }

  ghost predicate NewAt<P>(before: Log<P>, after: Log<P>, a: nat, inNewVersion: bool)
    requires a in after
  {
    && after[a].valid && after[a].newVersion == inNewVersion
    && forall b: nat :: b in before ==> b < a
  }

  ghost predicate Lawful<P>(before: Log<P>, after: Log<P>, r: Rules) {
    && (forall a: nat :: a in before ==> KeptAt(before, after, a, r))
    && (forall a: nat :: a in after && a !in before ==> NewAt(before, after, a, r.inNewVersion))
  }

  /** As Lawful, with no record overwritten at all. */
  ghost predicate Extends<P>(before: Log<P>, after: Log<P>, inNewVersion: bool) {
    && (forall a: nat :: a in before ==> a in after && SameOnDisk(after[a], before[a]))
    && (forall a: nat :: a in after && a !in before ==> NewAt(before, after, a, inNewVersion))
  }

  lemma ExtendsIsLawful<P>(before: Log<P>, after: Log<P>, r: Rules)
    requires Extends(before, after, r.inNewVersion)
    ensures Lawful(before, after, r)
  {
  }

  /** An attempt that writes nothing keeps the rules. */
  lemma NothingChanged<P>(log: Log<P>, r: Rules)
    ensures Lawful(log, log, r) && Extends(log, log, r.inNewVersion)
  {
  }

  /** One record written in place, where that is allowed. */
  lemma OverwriteIsLawful<P>(before: Log<P>, a: nat, rec: Record<P>, r: Rules)
    requires a in before && SamePlace(before[a], rec) && MayOverwrite(before[a], a, r)
    ensures Lawful(before, before[a := rec], r)
  {
  }

  /** Tombstoning an expired record and then creating a new one keeps the rules. */
  lemma ThenExtends<P>(before: Log<P>, mid: Log<P>, after: Log<P>, r: Rules)
    requires Lawful(before, mid, r) && mid.Keys == before.Keys && Extends(mid, after, r.inNewVersion)
    ensures Lawful(before, after, r)
  {
    forall a: nat | a in before
      ensures KeptAt(before, after, a, r)
    {
      assert KeptAt(before, mid, a, r);
    }
    forall a: nat | a in after && a !in before
      ensures NewAt(before, after, a, r.inNewVersion)
    {
      assert NewAt(mid, after, a, r.inNewVersion);
    }
  }

  /** Appending a record. */
  lemma AppendExtends<P>(before: Log<P>, addr: nat, rec: Record<P>, inNewVersion: bool)
    requires addr !in before && (forall b: nat :: b in before ==> b < addr)
    requires rec.valid && rec.newVersion == inNewVersion
    ensures Extends(before, before[addr := rec], inNewVersion)
  {
  }

  /** Sealing the record that it replaces. */
  lemma SealExtends<P>(before: Log<P>, after: Log<P>, a: nat, inNewVersion: bool)
    requires Extends(before, after, inNewVersion) && a in before
    ensures Extends(before, after[a := Sealed(after[a])], inNewVersion)
  {
    forall b: nat | b in after && b !in before
      ensures NewAt(before, after[a := Sealed(after[a])], b, inNewVersion)
    {
      assert NewAt(before, after, b, inNewVersion);
    }
  }

  // ---------------------------------------------------------------------
  // What the rules are for: a flushed record keeps its contents, and a record of
  // version v survives the sessions of v+1, however many attempts follow.
  // ---------------------------------------------------------------------

  /** Attempts one after another, each under the rules of its own session and moment. */
  ghost predicate LawfulRun<P>(logs: seq<Log<P>>, rules: seq<Rules>) {
    |logs| == |rules| + 1 && forall i :: 0 <= i < |rules| ==> Lawful(logs[i], logs[i + 1], rules[i])
  }

  /** A record as it was at one time is out of reach of every attempt from then until another time. */
  ghost predicate OutOfReach<P>(rec: Record<P>, a: nat, rules: seq<Rules>, from: nat, until: nat)
    requires from <= until <= |rules|
  {
    forall k :: from <= k < until ==> !MayOverwrite(rec, a, rules[k])
  }

  /** Such a record is never lost, moved or changed, but for the Sealed bit. */
  lemma {:induction false} ProtectedForever<P>(logs: seq<Log<P>>, rules: seq<Rules>, from: nat, until: nat, a: nat)
    requires LawfulRun(logs, rules) && from <= until < |logs| && a in logs[from]
    requires OutOfReach(logs[from][a], a, rules, from, until)
    ensures a in logs[until] && SameOnDisk(logs[until][a], logs[from][a])
    decreases until
  {
    if from < until {
      ProtectedForever(logs, rules, from, until - 1, a);
      assert KeptAt(logs[until - 1], logs[until], a, rules[until - 1]);
    }
  }

  /** ReadOnly never falls, so once it has passed a record, that record is final. */
  lemma ReadOnlyIsFinal<P>(logs: seq<Log<P>>, rules: seq<Rules>, from: nat, until: nat, a: nat)
    requires LawfulRun(logs, rules) && from <= until < |logs| && a in logs[from]
    requires forall j, k :: 0 <= j <= k < |rules| ==> rules[j].readOnly <= rules[k].readOnly
    requires from < |rules| && a < rules[from].readOnly
    ensures a in logs[until] && SameOnDisk(logs[until][a], logs[from][a])
  {
    ProtectedForever(logs, rules, from, until, a);
  }

  /** From the time all sessions are in version v+1 until the next version begins, version v stands still. */
  lemma OldVersionIsFinal<P>(logs: seq<Log<P>>, rules: seq<Rules>, from: nat, until: nat, start: nat, a: nat)
    requires LawfulRun(logs, rules) && from <= until < |logs| && a in logs[from]
    requires forall k :: from <= k < until ==> rules[k].inNewVersion && rules[k].start == start
    requires !OfNewVersion(logs[from][a], a, start)
    ensures a in logs[until] && SameOnDisk(logs[until][a], logs[from][a])
  {
    ProtectedForever(logs, rules, from, until, a);
  }

  /** The protection is exact: what the rules leave within reach, some attempt may change. */
  lemma ProtectedIff<P(!new)>(log: Log<P>, r: Rules, a: nat)
    requires a in log
    ensures !MayOverwrite(log[a], a, r)
            <==> forall after: Log<P> :: Lawful(log, after, r) ==> a in after && SameOnDisk(after[a], log[a])
  {
    if MayOverwrite(log[a], a, r) {
      var other := log[a].(tombstone := !log[a].tombstone);
      OverwriteIsLawful(log, a, other, r);
      assert !SameOnDisk(log[a := other][a], log[a]);
    } else {
      forall after: Log<P> | Lawful(log, after, r)
        ensures a in after && SameOnDisk(after[a], log[a])
      {
        assert KeptAt(log, after, a, r);
      }
    }
  }
}
