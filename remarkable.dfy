/**
 * The reMarkable Cloud gate: each `rmapi` invocation is a command sent to an oracle that
 * answers with an exit status and its output, a timeout or an exception. The oracle sees the
 * commands issued before, so a folder created by one call can be found by the next. Every
 * operation returns its decision together with the transcript of the commands it issued.
 */
module Remarkable {
  import opened Wrappers
  import opened PyText
  import opened Paths

  /** The `rmapi` sub-commands the uploader issues. */
  datatype Command =
    | Version
    | Find(target: string)
    | Mkdir(target: string)
    | Put(local: Path, folder: string)

  /** What one `subprocess.run` of `rmapi` gives back. */
  datatype Outcome =
    | Exited(code: int, stdout: string, stderr: string)
    | TimedOut   // `subprocess.TimeoutExpired`
    | Raised     // any other exception, e.g. the binary is missing

  /** The remote side: the answer to a command, given the commands issued before it. */
  type Rmapi = (seq<Command>, Command) -> Outcome

  /** A decision and the transcript after it. */
  datatype Run<T> = Run(value: T, log: seq<Command>)

  predicate Succeeded(o: Outcome) {
    o.Exited? && o.code == 0
  }

  /** `find` reports the target: exit status 0 and something other than whitespace on stdout. */
  predicate ReportsPresent(o: Outcome) {
    Succeeded(o) && !AllSpace(o.stdout)
  }

  /** The presence test is the truthiness of `stdout.strip()` after a zero exit status. */
  lemma ReportsPresentIsStripTest(o: Outcome)
    ensures ReportsPresent(o) <==> Succeeded(o) && Strip(o.stdout) != []
  {
    if o.Exited? {
      StripEmptyIffAllSpace(o.stdout);
    }
  }

  /** The text by which a failed `mkdir` reports a folder that is already there. */
  function AlreadyExists(): string {
    "already exists"
  }

  /** `mkdir` created the folder, or failed because it is already there. */
  predicate MkdirAccepted(o: Outcome) {
    o.Exited? && (o.code == 0 || Contains(Lower(o.stderr), AlreadyExists()))
  }

  /** The number of `put` commands in a transcript. */
  function Puts(log: seq<Command>): nat {
    if log == [] then 0 else (if log[|log| - 1].Put? then 1 else 0) + Puts(log[..|log| - 1])
  }

  lemma {:induction false} PutsAppend(a: seq<Command>, b: seq<Command>)
    ensures Puts(a + b) == Puts(a) + Puts(b)
    decreases |b|
  {
    if b == [] {
      assert a + b == a;
    } else {
      assert (a + b)[..|a + b| - 1] == a + b[..|b| - 1];
      PutsAppend(a, b[..|b| - 1]);
    }
  }

  /** `check_rmapi_available`: `rmapi version` exits 0; a failure, a timeout or a missing
      binary all mean unavailable. */
  function CheckRmapiAvailable(rm: Rmapi, log: seq<Command>): (r: Run<bool>)
    ensures r.log == log + [Version]
    ensures r.value ==> rm(log, Version).Exited?
    ensures r.value <==> Succeeded(rm(log, Version))
  {
    Run(Succeeded(rm(log, Version)), log + [Version])
  }

  /** `file_exists_in_remarkable`: one `find`; a timeout or an exception counts as absent. */
  function FileExistsInRemarkable(rm: Rmapi, log: seq<Command>, key: string): (r: Run<bool>)
    ensures r.log == log + [Find(key)]
    ensures r.value ==> rm(log, Find(key)).Exited? && rm(log, Find(key)).code == 0
    ensures r.value <==> ReportsPresent(rm(log, Find(key)))
  {
    Run(ReportsPresent(rm(log, Find(key))), log + [Find(key)])
  }

  /** `ensure_folder_exists` and `ensure_subfolder_exists`, which differ only in the target:
      `find` first, `mkdir` only when `find` ran and did not report the folder. */
  function EnsureFolderExists(rm: Rmapi, log: seq<Command>, target: string): (r: Run<bool>)
    ensures var find := rm(log, Find(target));
      ReportsPresent(find) || !find.Exited? ==> r.log == log + [Find(target)]
    ensures var find := rm(log, Find(target));
      !ReportsPresent(find) && find.Exited? ==> r.log == log + [Find(target), Mkdir(target)]
    ensures var find := rm(log, Find(target));
      r.value <==> (ReportsPresent(find)
                    || (find.Exited? && MkdirAccepted(rm(log + [Find(target)], Mkdir(target)))))
  {
    var found := FileExistsInRemarkable(rm, log, target);
    var find := rm(log, Find(target));
    if found.value then Run(true, found.log)
    else if !find.Exited? then Run(false, found.log)
    else
      var made := rm(found.log, Mkdir(target));
      assert found.log + [Mkdir(target)] == log + [Find(target), Mkdir(target)];
      Run(MkdirAccepted(made), found.log + [Mkdir(target)])
  }

  /** Ensuring a folder issues no `put` and adds one or two commands. */
  lemma EnsureFolderNoPut(rm: Rmapi, log: seq<Command>, target: string)
    ensures var r := EnsureFolderExists(rm, log, target);
      |log| < |r.log| <= |log| + 2 && r.log[..|log|] == log && Puts(r.log) == Puts(log)
  {
    var r := EnsureFolderExists(rm, log, target);
    if |r.log| == |log| + 1 {
      assert r.log == log + [Find(target)];
      PutsAppend(log, [Find(target)]);
    } else {
      assert r.log == log + [Find(target), Mkdir(target)];
      PutsAppend(log, [Find(target), Mkdir(target)]);
      assert Puts([Find(target), Mkdir(target)]) == 0 by {
        assert [Find(target), Mkdir(target)][..1] == [Find(target)];
      }
    }
  }

  /** A failed `mkdir` is still accepted when its error text says, in any mix of upper- and
      lower-case letters, that the folder already exists. */
  lemma AlreadyExistsAccepted(code: int, stdout: string, before: string, words: string, after: string)
    requires Lower(words) == AlreadyExists()
    ensures MkdirAccepted(Exited(code, stdout, before + words + after))
  {
    var err := before + words + after;
    var low := Lower(err);
    assert low[|before|..|before| + |words|] == Lower(words);
    assert OccursAt(low, AlreadyExists(), |before|);
    ContainsIffOccurs(low, AlreadyExists());
  }

  /** A subfolder argument is used only when it is a non-empty string (Python truthiness). */
  predicate HasSubfolder(sub: Option<string>) {
    sub.Some? && sub.value != ""
  }

  /** `get_remarkable_file_path`: `folder/sub/stem` with a subfolder, `folder/stem` without. */
  function RemoteFilePath(folder: string, pdf: Path, sub: Option<string>): (key: string)
    ensures HasSubfolder(sub) ==> key == folder + "/" + sub.value + "/" + Stem(pdf)
    ensures !HasSubfolder(sub) ==> key == folder + "/" + Stem(pdf)
  {
    if HasSubfolder(sub) then folder + "/" + sub.value + "/" + Stem(pdf)
    else folder + "/" + Stem(pdf)
  }

  /** The remote key of a generated PDF drops the `.pdf` of its file name: the examples of the
      unit tests, for any folder, subfolder and base name. */
  lemma RemoteKeyOfPdf(folder: string, dir: Path, base: string, sub: Option<string>)
    requires base != [] && '.' !in base
    ensures RemoteFilePath(folder, dir + [base + ".pdf"], sub)
         == (if HasSubfolder(sub) then folder + "/" + sub.value + "/" + base else folder + "/" + base)
  {
    StemOfPdf(dir, base);
  }

  /** The target folder of an upload. */
  function TargetFolder(folder: string, sub: Option<string>): string {
    if HasSubfolder(sub) then folder + "/" + sub.value else folder
  }

  /** The final `put`; true exactly when it exits 0. */
  function PutPdf(rm: Rmapi, log: seq<Command>, pdf: Path, target: string): (r: Run<bool>)
    ensures r.log == log + [Put(pdf, target)]
    ensures r.value <==> Succeeded(rm(log, Put(pdf, target)))
  {
    Run(Succeeded(rm(log, Put(pdf, target))), log + [Put(pdf, target)])
  }

  /** `upload_pdf`, in the source's order: the existence check on the remote key, the root
      folder, then the subfolder when there is one, then `put`. */
  function UploadPdf(rm: Rmapi, log: seq<Command>, folder: string, pdf: Path, sub: Option<string>): (r: Run<bool>)
  {
    var key := RemoteFilePath(folder, pdf, sub);
    var present := FileExistsInRemarkable(rm, log, key);
    if present.value then Run(true, present.log)
    else
      var root := EnsureFolderExists(rm, present.log, folder);
      if !root.value then Run(false, root.log)
      else if HasSubfolder(sub) then
        var subdir := EnsureFolderExists(rm, root.log, TargetFolder(folder, sub));
        if !subdir.value then Run(false, subdir.log)
        else PutPdf(rm, subdir.log, pdf, TargetFolder(folder, sub))
      else PutPdf(rm, root.log, pdf, TargetFolder(folder, sub))
  }

  /** Appending one command to a transcript that extends `log`. */
  lemma Extend(log: seq<Command>, before: seq<Command>, c: Command)
    requires |log| < |before| && before[..|log|] == log
    ensures var x := before + [c];
      && |log| < |x| && x[..|log|] == log && x[|log|] == before[|log|]
      && x[..|x| - 1] == before && x[|x| - 1] == c
      && Puts(x) == Puts(before) + (if c.Put? then 1 else 0)
  {
    var x := before + [c];
    assert x[..|log|] == before[..|log|];
    assert x[..|x| - 1] == before;
  }

  /** What `upload_pdf` promises. A remote key that is already there means success with
      nothing but the `find`. Otherwise at most one `put` is issued, as the last command,
      into the target folder, and only after the root folder and then the subfolder, when
      there is one, were ensured; once they are, the `put` is issued and decides the result.
      When a folder cannot be ensured no `put` is issued and the result is false. */
  lemma UploadPdfContract(rm: Rmapi, log: seq<Command>, folder: string, pdf: Path, sub: Option<string>)
    ensures var r := UploadPdf(rm, log, folder, pdf, sub);
      var key := RemoteFilePath(folder, pdf, sub);
      var found := ReportsPresent(rm(log, Find(key)));
      && |log| < |r.log| && r.log[..|log|] == log && r.log[|log|] == Find(key)
      && (found ==> r == Run(true, log + [Find(key)]))
      && Puts(r.log) <= Puts(log) + 1
      && (Puts(r.log) == Puts(log) + 1 ==>
            && !found
            && EnsureFolderExists(rm, log + [Find(key)], folder).value
            && r.log[|r.log| - 1] == Put(pdf, TargetFolder(folder, sub))
            && (r.value <==> Succeeded(rm(r.log[..|r.log| - 1], r.log[|r.log| - 1]))))
      && (Puts(r.log) == Puts(log) ==> (r.value <==> found))
      && var root := EnsureFolderExists(rm, log + [Find(key)], folder);
      var t := TargetFolder(folder, sub);
      var subdir := EnsureFolderExists(rm, root.log, t);
      var before := if HasSubfolder(sub) then subdir.log else root.log;
      && (Puts(r.log) == Puts(log) + 1 && HasSubfolder(sub) ==> subdir.value)
      && (!found && root.value && (!HasSubfolder(sub) || subdir.value) ==>
            && r == Run(Succeeded(rm(before, Put(pdf, t))), before + [Put(pdf, t)])
            && Puts(r.log) == Puts(log) + 1)
      && (!found && !(root.value && (!HasSubfolder(sub) || subdir.value)) ==>
            !r.value && Puts(r.log) == Puts(log))
  {
    var key := RemoteFilePath(folder, pdf, sub);
    var present := FileExistsInRemarkable(rm, log, key);
    assert present.log[..|log|] == log;
    PutsAppend(log, [Find(key)]);
    assert Puts([Find(key)]) == 0;
    if !present.value {
      var root := EnsureFolderExists(rm, present.log, folder);
      EnsureFolderNoPut(rm, present.log, folder);
      PrefixTrans(log, present.log, root.log);
      if root.value {
        var t := TargetFolder(folder, sub);
        if HasSubfolder(sub) {
          var subdir := EnsureFolderExists(rm, root.log, t);
          EnsureFolderNoPut(rm, root.log, t);
          PrefixTrans(log, root.log, subdir.log);
          if subdir.value {
            Extend(log, subdir.log, Put(pdf, t));
          }
        } else {
          Extend(log, root.log, Put(pdf, t));
        }
      }
    }
  }

  /** Extension of transcripts is transitive and keeps the first new command. */
  lemma PrefixTrans(a: seq<Command>, b: seq<Command>, c: seq<Command>)
    requires |a| < |b| <= |c| && b[..|a|] == a && c[..|b|] == b
    ensures c[..|a|] == a && c[|a|] == b[|a|]
  {
    assert c[..|a|] == c[..|b|][..|a|];
  }

  /** The subfolder the batch infers from a local path: the parent directory's name, when the
      grandparent is literally called `output`. */
  function InferSubfolder(pdf: Path): (sub: Option<string>)
    ensures sub.Some? <==> |pdf| >= 3 && pdf[|pdf| - 3] == "output"
    ensures sub.Some? ==> sub.value == pdf[|pdf| - 2]
  {
    if |pdf| >= 3 && pdf[|pdf| - 3] == "output" then Some(pdf[|pdf| - 2]) else None
  }

  /** A PDF written below `…/output/<feed>/` is uploaded into the folder of that feed. */
  lemma InferGeneratedSubfolder(outputDir: Path, feedDir: string, fileName: string)
    requires outputDir != [] && outputDir[|outputDir| - 1] == "output"
    ensures InferSubfolder(outputDir + [feedDir, fileName]) == Some(feedDir)
  {
  }

  /** The outcome of one path in the batch. */
  datatype Verdict = Uploaded | Failed | Skipped

  /** The three counters `upload_pdfs` returns. */
  datatype Tally = Tally(uploaded: nat, failed: nat, skipped: nat) {
    function Total(): nat {
      uploaded + failed + skipped
    }

    function Add(v: Verdict): Tally {
      match v
      case Uploaded => this.(uploaded := uploaded + 1)
      case Failed => this.(failed := failed + 1)
      case Skipped => this.(skipped := skipped + 1)
    }
  }

  /** Counting a verdict adds one to exactly its own counter. */
  lemma AddCounts(t: Tally, v: Verdict)
    ensures t.Add(v).Total() == t.Total() + 1
    ensures t.Add(v).uploaded == t.uploaded + (if v == Uploaded then 1 else 0)
    ensures t.Add(v).failed == t.failed + (if v == Failed then 1 else 0)
    ensures t.Add(v).skipped == t.skipped + (if v == Skipped then 1 else 0)
  {
  }

  /** One iteration of the batch loop: infer the subfolder, skip a path whose remote key
      exists, otherwise count the result of `upload_pdf`. */
  function UploadOne(rm: Rmapi, log: seq<Command>, folder: string, pdf: Path): (r: Run<Verdict>)
    ensures var key := RemoteFilePath(folder, pdf, InferSubfolder(pdf));
      r.value == Skipped <==> ReportsPresent(rm(log, Find(key)))
    ensures r.value == Skipped ==> r.log == log + [Find(RemoteFilePath(folder, pdf, InferSubfolder(pdf)))]
    ensures var key := RemoteFilePath(folder, pdf, InferSubfolder(pdf));
      var up := UploadPdf(rm, log + [Find(key)], folder, pdf, InferSubfolder(pdf));
      && (r.value == Uploaded <==> !ReportsPresent(rm(log, Find(key))) && up.value)
      && (r.value == Failed <==> !ReportsPresent(rm(log, Find(key))) && !up.value)
      && (r.value != Skipped ==> r.log == up.log)
  {
    var sub := InferSubfolder(pdf);
    var present := FileExistsInRemarkable(rm, log, RemoteFilePath(folder, pdf, sub));
    if present.value then Run(Skipped, present.log)
    else
      var up := UploadPdf(rm, present.log, folder, pdf, sub);
      Run(if up.value then Uploaded else Failed, up.log)
  }

  /** One iteration extends the transcript and issues at most one `put`, none for a skip. */
  lemma UploadOneLog(rm: Rmapi, log: seq<Command>, folder: string, pdf: Path)
    ensures var r := UploadOne(rm, log, folder, pdf);
      |log| < |r.log| && r.log[..|log|] == log
      && Puts(r.log) <= Puts(log) + (if r.value == Skipped then 0 else 1)
  {
    var sub := InferSubfolder(pdf);
    var key := RemoteFilePath(folder, pdf, sub);
    var present := FileExistsInRemarkable(rm, log, key);
    PutsAppend(log, [Find(key)]);
    assert Puts([Find(key)]) == 0;
    if !present.value {
      UploadPdfContract(rm, present.log, folder, pdf, sub);
      var up := UploadPdf(rm, present.log, folder, pdf, sub);
      assert up.log[..|log|] == log by {
        assert up.log[..|present.log|] == present.log;
      }
    }
  }

  /** The loop of `upload_pdfs` over the remaining paths, from a running tally. */
  function UploadEach(rm: Rmapi, log: seq<Command>, folder: string, pdfs: seq<Path>, t: Tally): Run<Tally>
    decreases |pdfs|
  {
    if pdfs == [] then Run(t, log)
    else
      var one := UploadOne(rm, log, folder, pdfs[0]);
      UploadEach(rm, one.log, folder, pdfs[1..], t.Add(one.value))
  }

  /** Every path adds exactly one to one counter, and a path issues at most one `put` unless
      it was skipped. */
  lemma {:induction false} UploadEachCounts(rm: Rmapi, log: seq<Command>, folder: string, pdfs: seq<Path>, t: Tally)
    ensures var r := UploadEach(rm, log, folder, pdfs, t);
      && r.value.Total() == t.Total() + |pdfs|
      && r.value.uploaded >= t.uploaded && r.value.failed >= t.failed && r.value.skipped >= t.skipped
      && |r.log| >= |log| && r.log[..|log|] == log
      && Puts(r.log) - Puts(log) <= (r.value.uploaded + r.value.failed) - (t.uploaded + t.failed)
    decreases |pdfs|
  {
    if pdfs != [] {
      var one := UploadOne(rm, log, folder, pdfs[0]);
      UploadOneLog(rm, log, folder, pdfs[0]);
      AddCounts(t, one.value);
      UploadEachCounts(rm, one.log, folder, pdfs[1..], t.Add(one.value));
      var r := UploadEach(rm, one.log, folder, pdfs[1..], t.Add(one.value));
      PrefixOfPrefix(log, one.log, r.log);
    }
  }

  /** A prefix of a prefix is a prefix. */
  lemma PrefixOfPrefix(a: seq<Command>, b: seq<Command>, c: seq<Command>)
    requires |a| <= |b| <= |c| && b[..|a|] == a && c[..|b|] == b
    ensures c[..|a|] == a
  {
    assert c[..|a|] == c[..|b|][..|a|];
  }

  /** The loop of `upload_pdfs` unrolled once at position `i`. */
  lemma UploadEachUnfold(rm: Rmapi, log: seq<Command>, folder: string, pdfs: seq<Path>, i: nat, t: Tally)
    requires i < |pdfs|
    ensures var one := UploadOne(rm, log, folder, pdfs[i]);
      UploadEach(rm, log, folder, pdfs[i..], t) == UploadEach(rm, one.log, folder, pdfs[i + 1..], t.Add(one.value))
  {
    assert pdfs[i..][0] == pdfs[i] && pdfs[i..][1..] == pdfs[i + 1..];
  }

  /** `upload_pdfs` as a whole: nothing is uploaded and every path counts as skipped when
      `rmapi` is unavailable or the root folder cannot be ensured. */
  function UploadPdfsSpec(rm: Rmapi, log: seq<Command>, folder: string, pdfs: seq<Path>): Run<Tally> {
    var check := CheckRmapiAvailable(rm, log);
    if !check.value then Run(Tally(0, 0, |pdfs|), check.log)
    else
      var root := EnsureFolderExists(rm, check.log, folder);
      if !root.value then Run(Tally(0, 0, |pdfs|), root.log)
      else UploadEach(rm, root.log, folder, pdfs, Tally(0, 0, 0))
  }

  /** The batch counters always add up to the number of paths; both early exits, an
      unavailable `rmapi` and a root folder that cannot be ensured, count every path as
      skipped and issue no `put` and no per-path command; and no more `put`s are issued than
      paths uploaded or failed. */
  lemma UploadPdfsCounts(rm: Rmapi, log: seq<Command>, folder: string, pdfs: seq<Path>)
    ensures var r := UploadPdfsSpec(rm, log, folder, pdfs);
      && r.value.Total() == |pdfs|
      && |r.log| >= |log| && r.log[..|log|] == log
      && Puts(r.log) - Puts(log) <= r.value.uploaded + r.value.failed
      && (!Succeeded(rm(log, Version)) ==> r == Run(Tally(0, 0, |pdfs|), log + [Version]))
      && var root := EnsureFolderExists(rm, log + [Version], folder);
      (Succeeded(rm(log, Version)) && !root.value ==> r == Run(Tally(0, 0, |pdfs|), root.log))
  {
    var check := CheckRmapiAvailable(rm, log);
    PutsAppend(log, [Version]);
    assert Puts([Version]) == 0;
    if check.value {
      var root := EnsureFolderExists(rm, check.log, folder);
      EnsureFolderNoPut(rm, check.log, folder);
      assert root.log[..|log|] == log by {
        assert root.log[..|check.log|] == check.log;
      }
      if root.value {
        UploadEachCounts(rm, root.log, folder, pdfs, Tally(0, 0, 0));
        var r := UploadEach(rm, root.log, folder, pdfs, Tally(0, 0, 0));
        assert r.log[..|log|] == log by {
          assert r.log[..|root.log|] == root.log;
        }
      }
    }
  }

  /** One pass of the batch loop: the path at `i` is handled and counted. */
  method UploadStep(rm: Rmapi, log: seq<Command>, folder: string, pdfs: seq<Path>, i: nat, t: Tally)
    returns (t': Tally, log': seq<Command>)
    requires i < |pdfs|
    ensures UploadEach(rm, log', folder, pdfs[i + 1..], t') == UploadEach(rm, log, folder, pdfs[i..], t)
    ensures t'.Total() == t.Total() + 1
  {
    var one := UploadOne(rm, log, folder, pdfs[i]);
    UploadEachUnfold(rm, log, folder, pdfs, i, t);
    AddCounts(t, one.value);
    t', log' := t.Add(one.value), one.log;
  }

  /** The batch loop of `upload_pdfs`: each path adds one to the counter of its verdict. */
  method UploadEachLoop(rm: Rmapi, log: seq<Command>, folder: string, pdfs: seq<Path>)
    returns (t: Tally, out: seq<Command>)
    ensures Run(t, out) == UploadEach(rm, log, folder, pdfs, Tally(0, 0, 0))
  {
    ghost var final := UploadEach(rm, log, folder, pdfs, Tally(0, 0, 0));
    t := Tally(0, 0, 0);
    out := log;
    var i := 0;
    assert pdfs[i..] == pdfs;
    while i < |pdfs|
      invariant 0 <= i <= |pdfs|
      invariant UploadEach(rm, out, folder, pdfs[i..], t) == final
    {
      t, out := UploadStep(rm, out, folder, pdfs, i, t);
      i := i + 1;
    }
    assert pdfs[i..] == [];
  }

  /** `upload_pdfs`: the two gates, then the batch loop. */
  method UploadPdfs(rm: Rmapi, log: seq<Command>, folder: string, pdfs: seq<Path>)
    returns (t: Tally, out: seq<Command>)
    ensures Run(t, out) == UploadPdfsSpec(rm, log, folder, pdfs)
    ensures t.Total() == |pdfs|
  {
    UploadPdfsCounts(rm, log, folder, pdfs);
    var check := CheckRmapiAvailable(rm, log);
    if !check.value {
      return Tally(0, 0, |pdfs|), check.log;
    }
    var root := EnsureFolderExists(rm, check.log, folder);
    if !root.value {
      return Tally(0, 0, |pdfs|), root.log;
    }
    t, out := UploadEachLoop(rm, root.log, folder, pdfs);
  }
}
