/**
  The reconciler of check_bitrot.py (`main`): for every file of the walk
  that the filter admits it computes the current digest and
    - saves it when the file has no sidecar yet,
    - does nothing when the sidecar holds the same digest,
    - on a mismatch asks the operator and overwrites the sidecar only on "y",
  and it counts every admitted file, whichever branch was taken.

  The directory walk is a sequence of (root, filename) entries, the file
  contents and the hash algorithm are parameters, and the operator's replies
  are a sequence consumed one per mismatch. When the replies run out,
  `raw_input` raises and the run stops where it is; sidecars saved before
  stay on disk.
 */
module Reconciler {
  import opened PyStrings
  import opened IgnoreFilter
  import opened ChecksumEngine
  import opened SidecarStore

  /** A name from a directory listing: never empty, never containing the separator. */
  type FileName = s: string | |s| > 0 && Sep !in s witness "f"

  /** One step of `for root, dirs, files in os.walk(...)` / `for filename in files`. */
  datatype Entry = Entry(root: string, name: FileName)

  /** The world the run looks at: each file's bytes, and the hash algorithm. */
  datatype Env = Env(contents: string -> seq<bv8>, hash: seq<bv8> -> Digest)

  /** `os.path.join(root, filename)` */
  function FullFilename(e: Entry): string {
    Join(e.root, e.name)
  }

  /** What `determineFileChecksum` returns for the file at `path` (see
      ChecksumEngine.DetermineFileChecksum). */
  function FileDigest(env: Env, path: string): Digest {
    env.hash(env.contents(path))
  }

  /** The state of a run: the sidecar files, `numFilesChecked`, how many
      replies were read, and whether `raw_input` hit the end of its input. */
  datatype ScanState = ScanState(sidecars: SidecarFiles, numFilesChecked: nat, cursor: nat, halted: bool)

  function Start(sidecars: SidecarFiles): ScanState {
    ScanState(sidecars, 0, 0, false)
  }

  /** The "y" test applied to an operator reply. */
  predicate Confirms(response: string) {
    Strip(response) == "y"
  }

  /** The body of the inner loop of `main` for one entry. */
  function Step(env: Env, replies: seq<string>, s: ScanState, e: Entry): (t: ScanState)
    ensures t.cursor == s.cursor || t.cursor == s.cursor + 1
    ensures s.numFilesChecked <= t.numFilesChecked <= s.numFilesChecked + 1
    ensures s.sidecars.Keys <= t.sidecars.Keys
    ensures IsIgnoredFile(e.name) ==> t == s
  {
    if IsIgnoredFile(e.name) then s
    else
      var fullFilename := FullFilename(e);
      var newFileChecksum := FileDigest(env, fullFilename);
      var checksumFilename := SidecarPath(fullFilename);
      if !IsFile(s.sidecars, checksumFilename) then
        s.(sidecars := SaveChecksum(s.sidecars, checksumFilename, newFileChecksum),
           numFilesChecked := s.numFilesChecked + 1)
      else if newFileChecksum == GetChecksum(s.sidecars, checksumFilename) then
        s.(numFilesChecked := s.numFilesChecked + 1)
      else if s.cursor >= |replies| then
        s.(halted := true)
      else
        s.(sidecars := if Confirms(replies[s.cursor])
                       then SaveChecksum(s.sidecars, checksumFilename, newFileChecksum)
                       else s.sidecars,
           numFilesChecked := s.numFilesChecked + 1,
           cursor := s.cursor + 1)
  }

  /** The whole loop: the entries in walk order, stopping once halted. */
  function Run(env: Env, replies: seq<string>, s: ScanState, walk: seq<Entry>): (t: ScanState)
    ensures s.halted ==> t == s
    ensures s.cursor <= t.cursor && s.sidecars.Keys <= t.sidecars.Keys
    ensures s.numFilesChecked <= t.numFilesChecked <= s.numFilesChecked + |walk|
    decreases |walk|
  {
    if walk == [] || s.halted then s
    else Run(env, replies, Step(env, replies, s, walk[0]), walk[1..])
  }

  /** The entries of the walk that the filter admits, in order. */
  function Admitted(walk: seq<Entry>): (r: seq<Entry>)
    ensures |r| <= |walk|
    ensures forall e :: e in r <==> e in walk && !IsIgnoredFile(e.name)
  {
    if walk == [] then []
    else if IsIgnoredFile(walk[0].name) then Admitted(walk[1..])
    else [walk[0]] + Admitted(walk[1..])
  }

  /** Admitted entries keep their multiplicity: an entry listed twice is
      checked (and counted) twice, and an ignored one never. */
  lemma {:induction false} AdmittedMultiplicity(walk: seq<Entry>)
    ensures forall e :: multiset(Admitted(walk))[e] == if IsIgnoredFile(e.name) then 0 else multiset(walk)[e]
    decreases |walk|
  {
    if walk != [] {
      AdmittedMultiplicity(walk[1..]);
      assert walk == [walk[0]] + walk[1..];
      assert multiset(walk) == multiset{walk[0]} + multiset(walk[1..]);
    }
  }

  /** The sidecar paths the walk may write: one per admitted entry. */
  function WrittenKeys(walk: seq<Entry>): set<string> {
    set e | e in walk && !IsIgnoredFile(e.name) :: SidecarPath(FullFilename(e))
  }

  /** The file of `e` has a sidecar whose stripped text is its current digest. */
  predicate Settled(env: Env, sidecars: SidecarFiles, e: Entry) {
    IsFile(sidecars, SidecarPath(FullFilename(e))) &&
    GetChecksum(sidecars, SidecarPath(FullFilename(e))) == FileDigest(env, FullFilename(e))
  }

  /** Every admitted file of the walk is settled. */
  predicate Consistent(env: Env, sidecars: SidecarFiles, walk: seq<Entry>) {
    forall e :: e in walk && !IsIgnoredFile(e.name) ==> Settled(env, sidecars, e)
  }

  /** Every reply read between `from` and `to` said "y". */
  predicate ConfirmedAll(replies: seq<string>, from: nat, to: nat) {
    forall i :: from <= i < to && i < |replies| ==> Confirms(replies[i])
  }

  /** No reply read between `from` and `to` said "y". */
  predicate DeclinedAll(replies: seq<string>, from: nat, to: nat) {
    forall i :: from <= i < to && i < |replies| ==> !Confirms(replies[i])
  }

  // ---------------------------------------------------------------------
  // One entry

  /** A file without a sidecar gets one holding its current digest. */
  lemma StepCreatesMissing(env: Env, replies: seq<string>, s: ScanState, e: Entry)
    requires !IsIgnoredFile(e.name) && !IsFile(s.sidecars, SidecarPath(FullFilename(e)))
    ensures var t := Step(env, replies, s, e);
            var key := SidecarPath(FullFilename(e));
            && t.sidecars == s.sidecars[key := FileDigest(env, FullFilename(e))]
            && GetChecksum(t.sidecars, key) == FileDigest(env, FullFilename(e))
            && t.numFilesChecked == s.numFilesChecked + 1 && t.cursor == s.cursor && t.halted == s.halted
  {
    SaveDigestThenGet(s.sidecars, SidecarPath(FullFilename(e)), FileDigest(env, FullFilename(e)));
  }

  /** A sidecar that matches is left alone and no reply is read. */
  lemma StepLeavesMatch(env: Env, replies: seq<string>, s: ScanState, e: Entry)
    requires !IsIgnoredFile(e.name) && IsFile(s.sidecars, SidecarPath(FullFilename(e)))
    requires GetChecksum(s.sidecars, SidecarPath(FullFilename(e))) == FileDigest(env, FullFilename(e))
    ensures Step(env, replies, s, e) == s.(numFilesChecked := s.numFilesChecked + 1)
  {
  }

  /** On a mismatch exactly one reply is read; the sidecar takes the new
      digest if and only if the reply is "y", and keeps its old text
      otherwise. With no reply left the run stops and nothing changes. */
  lemma StepMismatch(env: Env, replies: seq<string>, s: ScanState, e: Entry)
    requires !IsIgnoredFile(e.name) && IsFile(s.sidecars, SidecarPath(FullFilename(e)))
    requires GetChecksum(s.sidecars, SidecarPath(FullFilename(e))) != FileDigest(env, FullFilename(e))
    ensures var t := Step(env, replies, s, e);
            var key := SidecarPath(FullFilename(e));
            if s.cursor < |replies| then
              && t.cursor == s.cursor + 1 && t.numFilesChecked == s.numFilesChecked + 1 && t.halted == s.halted
              && t.sidecars.Keys == s.sidecars.Keys
              && (t.sidecars[key] == FileDigest(env, FullFilename(e)) <==> Confirms(replies[s.cursor]))
              && (!Confirms(replies[s.cursor]) ==> t.sidecars == s.sidecars)
            else
              t == s.(halted := true)
  {
    var key := SidecarPath(FullFilename(e));
    if s.cursor < |replies| && !Confirms(replies[s.cursor]) {
      SaveDigestThenGet(s.sidecars, key, FileDigest(env, FullFilename(e)));
      assert s.sidecars[key] != FileDigest(env, FullFilename(e));
    }
  }

  /** A declined mismatch stays a mismatch: the next visit of the same file
      counts it again and asks the operator again. */
  lemma DeclinedMismatchAsksAgain(env: Env, replies: seq<string>, s: ScanState, e: Entry)
    requires !IsIgnoredFile(e.name) && IsFile(s.sidecars, SidecarPath(FullFilename(e)))
    requires GetChecksum(s.sidecars, SidecarPath(FullFilename(e))) != FileDigest(env, FullFilename(e))
    requires s.cursor + 1 < |replies| && !Confirms(replies[s.cursor])
    ensures var t := Step(env, replies, s, e);
            var u := Step(env, replies, t, e);
            && u.cursor == s.cursor + 2 && u.numFilesChecked == s.numFilesChecked + 2
            && (u.sidecars[SidecarPath(FullFilename(e))] == FileDigest(env, FullFilename(e))
                <==> Confirms(replies[s.cursor + 1]))
  {
    StepMismatch(env, replies, s, e);
    StepMismatch(env, replies, Step(env, replies, s, e), e);
  }

  /** One entry writes at most its own sidecar, adds no other key and
      removes none; an ignored entry writes nothing. */
  lemma StepFrame(env: Env, replies: seq<string>, s: ScanState, e: Entry)
    ensures var t := Step(env, replies, s, e);
            && s.sidecars.Keys <= t.sidecars.Keys
            && (IsIgnoredFile(e.name) ==> t.sidecars == s.sidecars)
            && forall k :: k in t.sidecars && k != SidecarPath(FullFilename(e)) ==>
                 k in s.sidecars && t.sidecars[k] == s.sidecars[k]
  {
  }

  // ---------------------------------------------------------------------
  // A whole run

  /** numFilesChecked grows by exactly one per admitted entry; at most one
      reply is read per counted file. If the run stops early it has counted
      fewer. */
  lemma {:induction false} RunCounts(env: Env, replies: seq<string>, s: ScanState, walk: seq<Entry>)
    requires !s.halted
    ensures var t := Run(env, replies, s, walk);
            && (!t.halted ==> t.numFilesChecked == s.numFilesChecked + |Admitted(walk)|)
            && t.numFilesChecked <= s.numFilesChecked + |Admitted(walk)|
            && s.cursor <= t.cursor
            && t.cursor - s.cursor <= t.numFilesChecked - s.numFilesChecked
    decreases |walk|
  {
    if walk != [] {
      var s' := Step(env, replies, s, walk[0]);
      if !s'.halted {
        RunCounts(env, replies, s', walk[1..]);
      }
    }
  }

  /** Only the sidecars of admitted entries can change; no sidecar is ever
      deleted. */
  lemma {:induction false} RunFrame(env: Env, replies: seq<string>, s: ScanState, walk: seq<Entry>)
    ensures var t := Run(env, replies, s, walk);
            && s.sidecars.Keys <= t.sidecars.Keys
            && forall k :: k in t.sidecars && k !in WrittenKeys(walk) ==>
                 k in s.sidecars && t.sidecars[k] == s.sidecars[k]
    decreases |walk|
  {
    if walk != [] && !s.halted {
      var s' := Step(env, replies, s, walk[0]);
      StepFrame(env, replies, s, walk[0]);
      RunFrame(env, replies, s', walk[1..]);
      assert WrittenKeys(walk[1..]) <= WrittenKeys(walk) by {
        forall k | k in WrittenKeys(walk[1..]) ensures k in WrittenKeys(walk) {
          var e :| e in walk[1..] && !IsIgnoredFile(e.name) && k == SidecarPath(FullFilename(e));
          assert e in walk;
        }
      }
      if !IsIgnoredFile(walk[0].name) {
        assert SidecarPath(FullFilename(walk[0])) in WrittenKeys(walk);
      }
    }
  }

  /** What one entry writes is that file's current digest, under its own
      sidecar. */
  lemma StepWritesDigest(env: Env, replies: seq<string>, s: ScanState, e: Entry)
    ensures var t := Step(env, replies, s, e);
            forall k :: k in t.sidecars && (k !in s.sidecars || t.sidecars[k] != s.sidecars[k]) ==>
              !IsIgnoredFile(e.name) && k == SidecarPath(FullFilename(e)) &&
              t.sidecars[k] == FileDigest(env, FullFilename(e))
  {
    StepFrame(env, replies, s, e);
  }

  /** Whatever a run writes is a fresh digest: every sidecar it creates or
      changes belongs to an admitted entry of the walk and holds that file's
      current digest. This holds for every run, whether it stops early or
      not and whatever the replies say. */
  lemma {:induction false} RunWritesDigests(env: Env, replies: seq<string>, s: ScanState, walk: seq<Entry>)
    ensures var t := Run(env, replies, s, walk);
            forall k :: k in t.sidecars && (k !in s.sidecars || t.sidecars[k] != s.sidecars[k]) ==>
              exists e :: e in walk && !IsIgnoredFile(e.name) && k == SidecarPath(FullFilename(e)) &&
                          t.sidecars[k] == FileDigest(env, FullFilename(e))
    decreases |walk|
  {
    if walk != [] && !s.halted {
      var s' := Step(env, replies, s, walk[0]);
      var t := Run(env, replies, s', walk[1..]);
      StepWritesDigest(env, replies, s, walk[0]);
      RunWritesDigests(env, replies, s', walk[1..]);
      RunFrame(env, replies, s', walk[1..]);
      forall k | k in t.sidecars && (k !in s.sidecars || t.sidecars[k] != s.sidecars[k])
        ensures exists e :: e in walk && !IsIgnoredFile(e.name) && k == SidecarPath(FullFilename(e)) &&
                            t.sidecars[k] == FileDigest(env, FullFilename(e))
      {
        if k in s'.sidecars && t.sidecars[k] == s'.sidecars[k] {
          assert walk[0] in walk;
        } else {
          var e :| e in walk[1..] && !IsIgnoredFile(e.name) && k == SidecarPath(FullFilename(e)) &&
                   t.sidecars[k] == FileDigest(env, FullFilename(e));
          assert e in walk;
        }
      }
    }
  }

  /** An existing sidecar is overwritten only on an explicit "y": in a run
      in which no reply read says "y", every sidecar that existed keeps its
      text (new sidecars may still be created). */
  lemma {:induction false} RunOverwritesOnlyOnYes(env: Env, replies: seq<string>, s: ScanState, walk: seq<Entry>)
    requires DeclinedAll(replies, s.cursor, Run(env, replies, s, walk).cursor)
    ensures var t := Run(env, replies, s, walk);
            forall k :: k in s.sidecars ==> k in t.sidecars && t.sidecars[k] == s.sidecars[k]
    decreases |walk|
  {
    if walk != [] && !s.halted {
      var s' := Step(env, replies, s, walk[0]);
      var t := Run(env, replies, s', walk[1..]);
      assert s.cursor <= s'.cursor <= t.cursor;
      assert DeclinedAll(replies, s'.cursor, t.cursor);
      RunOverwritesOnlyOnYes(env, replies, s', walk[1..]);
      StepFrame(env, replies, s, walk[0]);
      if s'.cursor == s.cursor + 1 {
        assert s.cursor < |replies| && !Confirms(replies[s.cursor]);
      }
      assert forall k :: k in s.sidecars ==> s'.sidecars[k] == s.sidecars[k];
    }
  }

  /** No written sidecar is the sidecar of a sidecar: no "x.md5.md5" is
      ever created. */
  lemma WrittenKeysNotDoubled(walk: seq<Entry>)
    ensures forall k :: k in WrittenKeys(walk) ==> !EndsWith(k, ChecksumFileSuffix + ChecksumFileSuffix)
  {
    forall k | k in WrittenKeys(walk)
      ensures !EndsWith(k, ChecksumFileSuffix + ChecksumFileSuffix)
    {
      var e :| e in walk && !IsIgnoredFile(e.name) && k == SidecarPath(FullFilename(e));
      AdmittedPathNotSidecar(e);
      DoubledSuffix(FullFilename(e));
    }
  }

  /** A path that does not end in the suffix does not get the suffix twice
      by appending it once. */
  lemma DoubledSuffix(p: string)
    requires !EndsWith(p, ChecksumFileSuffix)
    ensures !EndsWith(p + ChecksumFileSuffix, ChecksumFileSuffix + ChecksumFileSuffix)
  {
    var k := p + ChecksumFileSuffix;
    if |p| >= |ChecksumFileSuffix| {
      var tail := p[|p| - 4..];
      assert k[|k| - 8..] == tail + ChecksumFileSuffix;
      assert (tail + ChecksumFileSuffix)[..4] == tail;
      assert (ChecksumFileSuffix + ChecksumFileSuffix)[..4] == ChecksumFileSuffix;
    }
  }

  /** The full path of an admitted file never ends in the sidecar suffix. */
  lemma AdmittedPathNotSidecar(e: Entry)
    requires !IsIgnoredFile(e.name)
    ensures !EndsWith(FullFilename(e), ChecksumFileSuffix)
  {
    var p := FullFilename(e);
    assert e.name[0] != Sep by { assert e.name[0] in e.name; }
    JoinDirectory(e.root, e.name);
    var dir := p[..|p| - |e.name|];
    IgnoredIndependentOfDirectory(dir, e.name);
  }

  /** An admitted entry whose step neither stops the run nor reads a "no"
      ends with a sidecar holding its current digest. */
  lemma StepSettlesOwnSidecar(env: Env, replies: seq<string>, s: ScanState, e: Entry)
    requires !IsIgnoredFile(e.name)
    requires var t := Step(env, replies, s, e);
             !t.halted && ConfirmedAll(replies, s.cursor, t.cursor)
    ensures Settled(env, Step(env, replies, s, e).sidecars, e)
  {
    var key := SidecarPath(FullFilename(e));
    var d := FileDigest(env, FullFilename(e));
    if !IsFile(s.sidecars, key) || GetChecksum(s.sidecars, key) != d {
      SaveDigestThenGet(s.sidecars, key, d);
      if IsFile(s.sidecars, key) {
        assert s.cursor < |replies| && Confirms(replies[s.cursor]);
      }
    }
  }

  /** A step that does not stop the run and does not read a "no" keeps every
      settled file settled, and settles its own file. */
  lemma StepKeepsSettled(env: Env, replies: seq<string>, s: ScanState, e: Entry, f: Entry)
    requires !IsIgnoredFile(f.name)
    requires f == e || Settled(env, s.sidecars, f)
    requires var t := Step(env, replies, s, e);
             !t.halted && ConfirmedAll(replies, s.cursor, t.cursor)
    ensures Settled(env, Step(env, replies, s, e).sidecars, f)
  {
    var k := SidecarPath(FullFilename(f));
    StepFrame(env, replies, s, e);
    if !IsIgnoredFile(e.name) && k == SidecarPath(FullFilename(e)) {
      SidecarPathInjective(FullFilename(f), FullFilename(e));
      StepSettlesOwnSidecar(env, replies, s, e);
    } else {
      assert Step(env, replies, s, e).sidecars[k] == s.sidecars[k];
    }
  }

  /** In a run that completes with every reply read saying "y", a file that
      was settled before, or that the run visits, is settled at the end. */
  lemma {:induction false} RunSettles(env: Env, replies: seq<string>, s: ScanState, walk: seq<Entry>, f: Entry)
    requires !s.halted && !IsIgnoredFile(f.name)
    requires f in walk || Settled(env, s.sidecars, f)
    requires var t := Run(env, replies, s, walk);
             !t.halted && ConfirmedAll(replies, s.cursor, t.cursor)
    ensures Settled(env, Run(env, replies, s, walk).sidecars, f)
    decreases |walk|
  {
    if walk != [] {
      var s' := Step(env, replies, s, walk[0]);
      var t := Run(env, replies, s', walk[1..]);
      assert !s'.halted;
      RunCounts(env, replies, s', walk[1..]);
      assert s.cursor <= s'.cursor <= t.cursor;
      assert ConfirmedAll(replies, s.cursor, s'.cursor);
      assert ConfirmedAll(replies, s'.cursor, t.cursor);
      if f == walk[0] || Settled(env, s.sidecars, f) {
        StepKeepsSettled(env, replies, s, walk[0], f);
      } else {
        assert f in walk[1..];
      }
      RunSettles(env, replies, s', walk[1..], f);
    }
  }

  /** A run in which every mismatch was confirmed leaves every admitted file
      with a sidecar holding its current digest. */
  lemma RunEstablishesConsistency(env: Env, replies: seq<string>, s: ScanState,
                                  done: seq<Entry>, walk: seq<Entry>)
    requires !s.halted && Consistent(env, s.sidecars, done)
    requires var t := Run(env, replies, s, walk);
             !t.halted && ConfirmedAll(replies, s.cursor, t.cursor)
    ensures Consistent(env, Run(env, replies, s, walk).sidecars, done + walk)
  {
    forall f | f in done + walk && !IsIgnoredFile(f.name)
      ensures Settled(env, Run(env, replies, s, walk).sidecars, f)
    {
      RunSettles(env, replies, s, walk, f);
    }
  }

  /** On consistent sidecars a run changes nothing, reads no reply and counts
      every admitted entry. */
  lemma {:induction false} RunOnConsistent(env: Env, replies: seq<string>, s: ScanState, walk: seq<Entry>)
    requires !s.halted && Consistent(env, s.sidecars, walk)
    ensures Run(env, replies, s, walk) == s.(numFilesChecked := s.numFilesChecked + |Admitted(walk)|)
    decreases |walk|
  {
    if walk != [] {
      var s' := Step(env, replies, s, walk[0]);
      assert walk[0] in walk;
      assert Consistent(env, s.sidecars, walk[1..]) by {
        forall e | e in walk[1..] ensures e in walk { }
      }
      RunOnConsistent(env, replies, s', walk[1..]);
    }
  }

  /** Idempotence: after a run that completed with every mismatch confirmed,
      a second run over the same file contents leaves every sidecar as it
      is, reads no reply (so it never blocks on the operator) and counts the
      same number of files. The second walk may list the admitted entries in
      any order (directory listings have none) and may list more ignored
      entries, such as the sidecars the first run created. */
  lemma Idempotent(env: Env, replies1: seq<string>, replies2: seq<string>, sidecars: SidecarFiles,
                   walk1: seq<Entry>, walk2: seq<Entry>)
    requires var t1 := Run(env, replies1, Start(sidecars), walk1);
             !t1.halted && ConfirmedAll(replies1, 0, t1.cursor)
    requires multiset(Admitted(walk2)) == multiset(Admitted(walk1))
    ensures var t1 := Run(env, replies1, Start(sidecars), walk1);
            var t2 := Run(env, replies2, Start(t1.sidecars), walk2);
            t2.sidecars == t1.sidecars && t2.cursor == 0 && !t2.halted &&
            t2.numFilesChecked == t1.numFilesChecked
  {
    var t1 := Run(env, replies1, Start(sidecars), walk1);
    RunCounts(env, replies1, Start(sidecars), walk1);
    assert Consistent(env, t1.sidecars, walk2) by {
      forall e | e in walk2 && !IsIgnoredFile(e.name) ensures Settled(env, t1.sidecars, e) {
        assert e in Admitted(walk2);
        assert e in multiset(Admitted(walk1));
        RunSettles(env, replies1, Start(sidecars), walk1, e);
      }
    }
    RunOnConsistent(env, replies2, Start(t1.sidecars), walk2);
    assert |Admitted(walk2)| == |multiset(Admitted(walk2))| == |multiset(Admitted(walk1))| == |Admitted(walk1)|;
  }

  // ---------------------------------------------------------------------
  // The program

  /** The body of `if(not isIgnoredFile(filename))` in `main` for one
      admitted entry: compute the digest with a fresh MD5-like accumulator
      and the default block size, then create, keep or (on "y") overwrite the
      sidecar and count the file. `completed` is false when a mismatch found
      no reply left, where `raw_input` raises before anything is written or
      counted. */
  method CheckFile(env: Env, replies: seq<string>, e: Entry,
                   sidecars0: SidecarFiles, numFilesChecked0: nat, cursor0: nat)
    returns (sidecars: SidecarFiles, numFilesChecked: nat, cursor: nat, completed: bool)
    requires !IsIgnoredFile(e.name)
    ensures ScanState(sidecars, numFilesChecked, cursor, !completed)
            == Step(env, replies, ScanState(sidecars0, numFilesChecked0, cursor0, false), e)
  {
    sidecars, numFilesChecked, cursor, completed := sidecars0, numFilesChecked0, cursor0, true;
    var fullFilename := Join(e.root, e.name);
    var hashingMethod := new HashAccumulator(env.hash);
    var newFileChecksum := DetermineFileChecksum(env.contents(fullFilename), hashingMethod, DefaultBlockSize);
    assert [] + env.contents(fullFilename) == env.contents(fullFilename);
    var checksumFilename := fullFilename + ChecksumFileSuffix;
    if IsFile(sidecars, checksumFilename) {
      var existingFileChecksum := GetChecksum(sidecars, checksumFilename);
      if newFileChecksum != existingFileChecksum {
        if cursor >= |replies| {
          completed := false;
          return;
        }
        var response := replies[cursor];
        cursor := cursor + 1;
        if Strip(response) == "y" {
          sidecars := SaveChecksum(sidecars, checksumFilename, newFileChecksum);
        }
      }
    } else {
      sidecars := SaveChecksum(sidecars, checksumFilename, newFileChecksum);
    }
    numFilesChecked := numFilesChecked + 1;
  }

  /** `main`: walks the entries, skips the ignored ones and checks the rest.
      It returns `completed == false` when the operator's input ran out. */
  method CheckTree(env: Env, walk: seq<Entry>, sidecars0: SidecarFiles, replies: seq<string>)
    returns (sidecars: SidecarFiles, numFilesChecked: nat, cursor: nat, completed: bool)
    ensures ScanState(sidecars, numFilesChecked, cursor, !completed) == Run(env, replies, Start(sidecars0), walk)
    ensures completed ==> numFilesChecked == |Admitted(walk)|
    ensures forall k :: k in sidecars && k !in WrittenKeys(walk) ==> k in sidecars0 && sidecars[k] == sidecars0[k]
  {
    sidecars, numFilesChecked, cursor, completed := sidecars0, 0, 0, true;
    var i := 0;
    while i < |walk|
      invariant 0 <= i <= |walk|
      invariant Run(env, replies, Start(sidecars0), walk)
                == Run(env, replies, ScanState(sidecars, numFilesChecked, cursor, false), walk[i..])
    {
      assert walk[i..][1..] == walk[i + 1..];
      if !IsIgnoredFile(walk[i].name) {
        sidecars, numFilesChecked, cursor, completed :=
          CheckFile(env, replies, walk[i], sidecars, numFilesChecked, cursor);
        if !completed {
          break;
        }
      }
      i := i + 1;
    }
    RunCounts(env, replies, Start(sidecars0), walk);
    RunFrame(env, replies, Start(sidecars0), walk);
  }
}
