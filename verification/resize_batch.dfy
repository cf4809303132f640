/** The batch loop of the resizer as a fold over the directory's entries.
    Each entry carries the answers of the world the loop asks about it
    (does the imaging library open it and at what size, do its pixels
    decode, does the output exist already, does the user allow the
    overwrite, does the save succeed); cancellation is the index of the
    first entry before which the cancel flag reads as set. */
module ResizeBatch {
  import opened PathNames
  import opened FileKinds
  import opened CoverCrop

  /** What opening a file with the imaging library yields. */
  datatype Opening = Opened(width: nat, height: nat) | OpenFailed(error: string)

  /** Whether the pixel data decodes when `resize` first needs it. Opening
      reads only the header, so a truncated or corrupt file opens and then
      raises inside `resize` or `crop`, outside the `try` around the open. */
  datatype Decoding = Decoded | DecodeFailed(error: string)

  /** What saving the cropped image yields. */
  datatype Saving = SaveOk | SaveFailed(error: string)

  /** One directory entry and the world's answers about it. `overwrite` is
      the user's answer, consulted only when `outputExists` holds. */
  datatype ImageFile = ImageFile(
    name: string,
    opening: Opening,
    decoding: Decoding,
    outputExists: bool,
    overwrite: bool,
    saving: Saving)

  /** The cancel flag as the loop observes it: never set, or first seen set
      at the check before the entry with the given index. The loop returns
      at the first check that reads it as set, so later readings never
      matter. */
  datatype Cancel = Never | Before(index: nat)

  /** A (file name, reason) pair of `skip_details` or `write_failures`. */
  datatype Entry = Entry(file: string, reason: string)

  /** The path one entry takes through the loop body. */
  datatype Outcome =
    | SkippedWebp
    | Unreadable(error: string)
    | Declined(output: string)
    | Written(output: string, fit: Fit)
    | WriteFailed(output: string, error: string)
    | SkippedUnsupported
    | Crashed(error: string)

  /** The message handed to the progress callback, without its wording. */
  datatype Notice =
    | CancelledNotice
    | WebpNotice(file: string)
    | UnreadableNotice(file: string, error: string)
    | DeclinedNotice(file: string)
    | ProcessedNotice(file: string, output: string)
    | WriteErrorNotice(file: string, error: string)
    | UnsupportedNotice(file: string)
    | Tick

  /** One call of the progress callback: message, processed count, total. */
  datatype Report = Report(notice: Notice, processed: nat, total: nat)

  /** The loop's running state: the two lists, the counter and the callback
      calls made so far. */
  datatype Tally = Tally(
    skipDetails: seq<Entry>,
    writeFailures: seq<Entry>,
    processed: nat,
    reports: seq<Report>)

  /** A run either returns the triple (plus the reports it made), or raises
      out of the loop, when only the reports made so far were observed. */
  datatype Run = Returned(tally: Tally) | Raised(error: string, reports: seq<Report>)

  const WebpReason: string := ".webp files are not processed (incompatible with PsychoPy)"
  const DeclinedReason: string := "User chose not to overwrite existing file."
  const UnsupportedReason: string := "Unsupported file format."
  const ReadErrorPrefix: string := "Could not read image: "
  const ZeroDivisionError: string := "division by zero"

  /** The loop body for one entry, in the order the source tests things:
      the lower-cased extension first (`.webp`, then the six image
      extensions), then opening, then the geometry (a zero side divides by
      zero, and pixels that do not decode make `resize` raise), then the
      overwrite question, then the save. A saved crop always has the
      target's size and sits centred inside the resized image. */
  function Handle(f: ImageFile, target: Size, desiredExt: string): (o: Outcome)
    requires PositiveSize(target)
    ensures o.Written? ==>
      HasSize(o.fit.crop, target) && Inside(o.fit.crop, o.fit.resized) && Centred(o.fit.crop, o.fit.resized)
  {
    match Classify(f.name)
    case Webp => SkippedWebp
    case Unsupported => SkippedUnsupported
    case Image =>
      match f.opening
      case OpenFailed(e) => Unreadable(e)
      case Opened(w, h) =>
        if w == 0 || h == 0 then Crashed(ZeroDivisionError)
        else match f.decoding
          case DecodeFailed(e) => Crashed(e)
          case Decoded =>
            var fit := CoverAndCrop(Size(w, h), target);
            var output := OutputName(f.name, desiredExt);
            if f.outputExists && !f.overwrite then Declined(output)
            else match f.saving
              case SaveOk => Written(output, fit)
              case SaveFailed(e) => WriteFailed(output, e)
  }

  /** The entry an outcome adds to `skip_details`, if any. */
  function SkipEntry(name: string, o: Outcome): seq<Entry>
  {
    match o
    case SkippedWebp => [Entry(name, WebpReason)]
    case Unreadable(e) => [Entry(name, ReadErrorPrefix + e)]
    case Declined(_) => [Entry(name, DeclinedReason)]
    case SkippedUnsupported => [Entry(name, UnsupportedReason)]
    case _ => []
  }

  /** The entry an outcome adds to `write_failures`, if any. */
  function FailureEntry(name: string, o: Outcome): seq<Entry>
  {
    match o
    case WriteFailed(_, e) => [Entry(name, e)]
    case _ => []
  }

  /** The callback calls the loop body makes for one entry, `before` being
      the counter's value when the body starts. */
  function FileReports(name: string, o: Outcome, before: nat, total: nat): seq<Report>
  {
    match o
    case SkippedWebp => [Report(WebpNotice(name), before + 1, total)]
    case Unreadable(e) => [Report(UnreadableNotice(name, e), before + 1, total)]
    case Declined(_) => [Report(DeclinedNotice(name), before + 1, total)]
    case Written(output, _) =>
      [Report(ProcessedNotice(name, output), before + 1, total), Report(Tick, before + 1, total)]
    case WriteFailed(_, e) =>
      [Report(WriteErrorNotice(name, e), before + 1, total), Report(Tick, before + 1, total)]
    case SkippedUnsupported =>
      [Report(UnsupportedNotice(name), before + 1, total), Report(Tick, before + 1, total)]
    case Crashed(_) => []
  }

  /** Every completed pass through the loop body adds one to the counter and
      at most one entry to the two lists together. */
  function Record(t: Tally, name: string, o: Outcome, total: nat): (t': Tally)
    ensures t'.processed == t.processed + 1
    ensures t.skipDetails <= t'.skipDetails && t.writeFailures <= t'.writeFailures
    ensures |t'.skipDetails| + |t'.writeFailures| <= |t.skipDetails| + |t.writeFailures| + 1
  {
    Tally(
      t.skipDetails + SkipEntry(name, o),
      t.writeFailures + FailureEntry(name, o),
      t.processed + 1,
      t.reports + FileReports(name, o, t.processed, total))
  }

  /** The cancel flag reads as set at the check before entry `i`. */
  predicate CancelledAt(cancel: Cancel, i: nat)
  {
    cancel.Before? && cancel.index <= i
  }

  /** The loop body for a fixed target and extension, as a function value. */
  function BodyFor(target: Size, desiredExt: string): (body: ImageFile -> Outcome)
    requires PositiveSize(target)
    ensures forall f :: body(f) == Handle(f, target, desiredExt)
  {
    f => Handle(f, target, desiredExt)
  }

  /** The loop from entry `i` on, `body` deciding each entry's path. It
      only ever appends to the lists and the reports, counts at most the
      entries that remain, and adds at most one list entry per count. */
  function Loop(files: seq<ImageFile>, i: nat, body: ImageFile -> Outcome,
                cancel: Cancel, t: Tally): (r: Run)
    requires i <= |files|
    ensures r.Returned? ==>
      && t.skipDetails <= r.tally.skipDetails
      && t.writeFailures <= r.tally.writeFailures
      && t.reports <= r.tally.reports
      && t.processed <= r.tally.processed <= t.processed + (|files| - i)
      && |r.tally.skipDetails| + |r.tally.writeFailures| - |t.skipDetails| - |t.writeFailures|
           <= r.tally.processed - t.processed
    ensures r.Raised? ==> t.reports <= r.reports
    decreases |files| - i
  {
    if i == |files| then Returned(t)
    else if CancelledAt(cancel, i) then
      Returned(t.(reports := t.reports + [Report(CancelledNotice, t.processed, |files|)]))
    else
      var o := body(files[i]);
      if o.Crashed? then Raised(o.error, t.reports)
      else Loop(files, i + 1, body, cancel, Record(t, files[i].name, o, |files|))
  }

  const NoTally: Tally := Tally([], [], 0, [])

  /** `process_images_in_folder` over the listed entries: the loop stops at
      the cancellation point, raises the error of the first entry before it
      that raises, and otherwise returns one count per handled entry and at
      most one list entry per handled entry. */
  function ProcessImagesInFolder(files: seq<ImageFile>, target: Size, desiredExt: string,
                                 cancel: Cancel): (r: Run)
    requires PositiveSize(target)
    ensures var h := Horizon(cancel, |files|);
      && (r.Raised? <==> exists j :: 0 <= j < h && Raises(files[j]))
      && (r.Raised? ==> exists j :: 0 <= j < h && Raises(files[j]) && r.error == RaisedError(files[j])
                          && forall k :: 0 <= k < j ==> !Raises(files[k]))
      && (r.Returned? ==> r.tally.processed == h)
      && (r.Returned? ==> |r.tally.skipDetails| + |r.tally.writeFailures| <= r.tally.processed)
      && (r.Returned? ==> ProgressSane(r.tally.reports, |files|))
      && (r.Returned? && |r.tally.reports| > 0 ==>
            r.tally.reports[|r.tally.reports| - 1].processed == r.tally.processed)
  {
    var h := Horizon(cancel, |files|);
    var body := BodyFor(target, desiredExt);
    LoopMatchesReference(files, 0, body, cancel, NoTally);
    CrashesIffRaises(files, h, target, desiredExt);
    var r := Loop(files, 0, body, cancel, NoTally);
    CountsOfReturnedRun(files, h, body, r);
    RaisedAtFirst(files, target, desiredExt, cancel);
    r
  }

  // ----- Reference definitions: what the loop computes, entry by entry -----

  /** Number of entries the loop handles before it stops: all of them, or
      those before the cancellation point. */
  function Horizon(cancel: Cancel, n: nat): (h: nat)
    ensures h <= n
    ensures h == n <==> !(cancel.Before? && cancel.index < n)
  {
    if cancel.Before? && cancel.index < n then cancel.index else n
  }

  /** The loop body raises on this entry: it is an image the library opens,
      and either a side is zero or its pixels do not decode. */
  predicate Raises(f: ImageFile)
  {
    Classify(f.name) == Image && f.opening.Opened?
      && (f.opening.width == 0 || f.opening.height == 0 || f.decoding.DecodeFailed?)
  }

  /** The error a raising entry raises: the division comes before `resize`. */
  function RaisedError(f: ImageFile): string
    requires Raises(f)
  {
    if f.opening.width == 0 || f.opening.height == 0 then ZeroDivisionError
    else f.decoding.error
  }

  /** Some entry's body raises. */
  predicate Crashes(files: seq<ImageFile>, body: ImageFile -> Outcome)
  {
    files != [] && (Crashes(files[..|files| - 1], body) || body(files[|files| - 1]).Crashed?)
  }

  /** `skip_details` for these entries: one entry per skipped file, in order. */
  function Skips(files: seq<ImageFile>, body: ImageFile -> Outcome): seq<Entry>
  {
    if files == [] then []
    else
      var last := files[|files| - 1];
      Skips(files[..|files| - 1], body) + SkipEntry(last.name, body(last))
  }

  /** `write_failures` for these entries, in order. */
  function Failures(files: seq<ImageFile>, body: ImageFile -> Outcome): seq<Entry>
  {
    if files == [] then []
    else
      var last := files[|files| - 1];
      Failures(files[..|files| - 1], body) + FailureEntry(last.name, body(last))
  }

  /** The output names saved for these entries, in order. */
  function Outputs(files: seq<ImageFile>, body: ImageFile -> Outcome): seq<string>
  {
    if files == [] then []
    else
      var o := body(files[|files| - 1]);
      Outputs(files[..|files| - 1], body) + (if o.Written? then [o.output] else [])
  }

  /** Reports that never go backwards and never pass `total`. */
  predicate ProgressSane(reports: seq<Report>, total: nat)
  {
    && (forall k :: 0 <= k < |reports| ==> reports[k].processed <= total && reports[k].total == total)
    && (forall k, l :: 0 <= k < l < |reports| ==> reports[k].processed <= reports[l].processed)
  }

  /** The tally of the first `i` entries, with reports that never go
      backwards, never pass the total and end at the counter. */
  predicate TallyOf(files: seq<ImageFile>, i: nat, body: ImageFile -> Outcome, t: Tally)
    requires i <= |files|
  {
    && t.skipDetails == Skips(files[..i], body)
    && t.writeFailures == Failures(files[..i], body)
    && t.processed == i
    && ProgressSane(t.reports, |files|)
    && (forall k :: 0 <= k < |t.reports| ==> t.reports[k].processed <= i)
    && (|t.reports| > 0 ==> t.reports[|t.reports| - 1].processed == i)
  }

  // ----- The loop agrees with the reference definitions -----

  lemma PrefixOfPrefix(files: seq<ImageFile>, i: nat)
    requires i < |files|
    ensures files[..i + 1][..i] == files[..i]
    ensures files[..i + 1][i] == files[i]
  {
  }

  lemma CrashesPrefix(files: seq<ImageFile>, i: nat, body: ImageFile -> Outcome)
    requires i < |files|
    ensures Crashes(files[..i + 1], body) <==> (Crashes(files[..i], body) || body(files[i]).Crashed?)
  {
    PrefixOfPrefix(files, i);
  }

  lemma {:induction false} CrashesMonotone(files: seq<ImageFile>, i: nat, h: nat, body: ImageFile -> Outcome)
    requires i <= h <= |files|
    requires Crashes(files[..i], body)
    ensures Crashes(files[..h], body)
    decreases h
  {
    if h > i {
      CrashesMonotone(files, i, h - 1, body);
      CrashesPrefix(files, h - 1, body);
    }
  }

  /** One pass through the loop body extends the tally of `i` entries to the
      tally of `i + 1` entries. */
  lemma RecordStep(files: seq<ImageFile>, i: nat, body: ImageFile -> Outcome, t: Tally)
    requires i < |files|
    requires TallyOf(files, i, body, t)
    requires !body(files[i]).Crashed?
    ensures TallyOf(files, i + 1, body, Record(t, files[i].name, body(files[i]), |files|))
  {
    var o := body(files[i]);
    var t' := Record(t, files[i].name, o, |files|);
    PrefixOfPrefix(files, i);
    var added := FileReports(files[i].name, o, i, |files|);
    FileReportsCount(files[i].name, o, i, |files|);
    assert t'.reports == t.reports + added;
    ProgressSaneAppend(t.reports, added, i, |files|);
  }

  /** Reports at most `i` followed by reports at exactly `i + 1` (within
      the total) still never go backwards. */
  lemma ProgressSaneAppend(a: seq<Report>, b: seq<Report>, i: nat, total: nat)
    requires i < total
    requires ProgressSane(a, total)
    requires forall k :: 0 <= k < |a| ==> a[k].processed <= i
    requires forall k :: 0 <= k < |b| ==> b[k].processed == i + 1 && b[k].total == total
    ensures ProgressSane(a + b, total)
  {
  }

  /** Every report of a completed pass carries the advanced count and the
      total, and a completed pass reports at least once. */
  lemma FileReportsCount(name: string, o: Outcome, before: nat, total: nat)
    requires !o.Crashed?
    ensures var added := FileReports(name, o, before, total);
      && |added| > 0
      && forall k :: 0 <= k < |added| ==> added[k].processed == before + 1 && added[k].total == total
  {
  }

  /** What a run of the loop over `files` with cancellation horizon `h`
      returns, in terms of the reference definitions. */
  predicate AgreesWithReference(files: seq<ImageFile>, h: nat, body: ImageFile -> Outcome, r: Run)
    requires h <= |files|
  {
    && (r.Returned? <==> !Crashes(files[..h], body))
    && (r.Returned? ==> TallyOf(files, h, body, r.tally))
    && (r.Raised? ==> FirstCrash(files, h, body, r.error) && ProgressSane(r.reports, |files|))
  }

  /** `error` is what the first raising entry among the first `h` raises. */
  predicate FirstCrash(files: seq<ImageFile>, h: nat, body: ImageFile -> Outcome, error: string)
    requires h <= |files|
  {
    exists j :: 0 <= j < h && body(files[j]).Crashed? && body(files[j]).error == error
                && !Crashes(files[..j], body)
  }

  /** The loop, started at entry `i` with the tally of the first `i`
      entries, returns the tally of the first `Horizon` entries unless one
      of those raises, in which case it raises. Its reports never go
      backwards, never pass the total and end at the returned count. */
  lemma {:induction false} LoopMatchesReference(files: seq<ImageFile>, i: nat,
      body: ImageFile -> Outcome, cancel: Cancel, t: Tally)
    requires i <= Horizon(cancel, |files|)
    requires !Crashes(files[..i], body)
    requires TallyOf(files, i, body, t)
    ensures AgreesWithReference(files, Horizon(cancel, |files|), body, Loop(files, i, body, cancel, t))
    decreases |files| - i
  {
    var h := Horizon(cancel, |files|);
    if i == |files| {
      assert h == i;
    } else if CancelledAt(cancel, i) {
      LoopCancelled(files, i, body, cancel, t);
    } else {
      var o := body(files[i]);
      CrashesPrefix(files, i, body);
      if !o.Crashed? {
        RecordStep(files, i, body, t);
        LoopMatchesReference(files, i + 1, body, cancel, Record(t, files[i].name, o, |files|));
      } else {
        CrashesMonotone(files, i + 1, h, body);
        assert i < h;
      }
    }
  }

  /** A run from the first entry returns exactly when none of the entries
      before the cancellation point raises, and then returns the reference
      lists and count of those entries. */
  lemma RunFromStart(files: seq<ImageFile>, body: ImageFile -> Outcome, cancel: Cancel)
    ensures var h := Horizon(cancel, |files|);
      var r := Loop(files, 0, body, cancel, NoTally);
      && (r.Returned? <==> !Crashes(files[..h], body))
      && (r.Returned? ==>
            && r.tally.processed == h
            && r.tally.skipDetails == Skips(files[..h], body)
            && r.tally.writeFailures == Failures(files[..h], body))
  {
    LoopMatchesReference(files, 0, body, cancel, NoTally);
  }

  /** At the cancellation point the loop returns the tally it has, after
      one more report at the same count. */
  lemma LoopCancelled(files: seq<ImageFile>, i: nat, body: ImageFile -> Outcome, cancel: Cancel, t: Tally)
    requires i < |files| && CancelledAt(cancel, i) && i <= Horizon(cancel, |files|)
    requires !Crashes(files[..i], body)
    requires TallyOf(files, i, body, t)
    ensures AgreesWithReference(files, Horizon(cancel, |files|), body, Loop(files, i, body, cancel, t))
  {
    var r := Loop(files, i, body, cancel, t);
    var rs := r.tally.reports;
    assert rs == t.reports + [Report(CancelledNotice, i, |files|)];
    assert rs[|rs| - 1].processed == i;
    assert ProgressSane(rs, |files|);
  }

  /** When `bad` picks out the entries whose body raises, the first `h`
      entries raise exactly when one of them is bad. */
  lemma {:induction false} CrashesIffSomeBad(files: seq<ImageFile>, h: nat,
      body: ImageFile -> Outcome, bad: ImageFile -> bool)
    requires h <= |files|
    requires forall f :: body(f).Crashed? <==> bad(f)
    ensures Crashes(files[..h], body) <==> exists j :: 0 <= j < h && bad(files[j])
    decreases h
  {
    if h > 0 {
      CrashesIffSomeBad(files, h - 1, body, bad);
      CrashesPrefix(files, h - 1, body);
    }
  }

  /** With the resizer's body, the first `h` entries raise exactly when one
      of them is an image with a zero side or with pixels that do not
      decode. */
  lemma CrashesIffRaises(files: seq<ImageFile>, h: nat, target: Size, desiredExt: string)
    requires h <= |files| && PositiveSize(target)
    ensures Crashes(files[..h], BodyFor(target, desiredExt)) <==>
      exists j :: 0 <= j < h && Raises(files[j])
  {
    var body := BodyFor(target, desiredExt);
    forall f
      ensures body(f).Crashed? <==> Raises(f)
    {
      HandleRaises(f, target, desiredExt);
    }
    CrashesIffSomeBad(files, h, body, Raises);
  }

  /** A raising run of the resizer raises the error of the first entry
      before the cancellation point that raises. */
  lemma RaisedAtFirst(files: seq<ImageFile>, target: Size, desiredExt: string, cancel: Cancel)
    requires PositiveSize(target)
    ensures var h := Horizon(cancel, |files|);
      var r := Loop(files, 0, BodyFor(target, desiredExt), cancel, NoTally);
      r.Raised? ==>
        exists j :: 0 <= j < h && Raises(files[j]) && r.error == RaisedError(files[j])
                    && forall k :: 0 <= k < j ==> !Raises(files[k])
  {
    var h := Horizon(cancel, |files|);
    var body := BodyFor(target, desiredExt);
    var r := Loop(files, 0, body, cancel, NoTally);
    LoopMatchesReference(files, 0, body, cancel, NoTally);
    if r.Raised? {
      var j :| 0 <= j < h && body(files[j]).Crashed? && body(files[j]).error == r.error
               && !Crashes(files[..j], body);
      CrashesIffRaises(files, j, target, desiredExt);
      HandleRaises(files[j], target, desiredExt);
    }
  }

  lemma CountsOfReturnedRun(files: seq<ImageFile>, h: nat, body: ImageFile -> Outcome, r: Run)
    requires h <= |files|
    requires AgreesWithReference(files, h, body, r)
    ensures r.Returned? ==> r.tally.processed == h
    ensures r.Returned? ==> |r.tally.skipDetails| + |r.tally.writeFailures| <= r.tally.processed
  {
    if r.Returned? {
      TallyCountsEveryFile(files[..h], body);
    }
  }

  /** Every entry of a batch that does not raise takes exactly one path: a
      skip entry, a failure entry or a saved output. */
  lemma {:induction false} TallyCountsEveryFile(files: seq<ImageFile>, body: ImageFile -> Outcome)
    requires !Crashes(files, body)
    ensures |Skips(files, body)| + |Failures(files, body)| + |Outputs(files, body)| == |files|
  {
    if files != [] {
      TallyCountsEveryFile(files[..|files| - 1], body);
    }
  }

  // ----- What one entry does -----

  /** The loop body raises exactly for the entries that `Raises` picks
      out, with the error `RaisedError` names. */
  lemma HandleRaises(f: ImageFile, target: Size, desiredExt: string)
    requires PositiveSize(target)
    ensures Handle(f, target, desiredExt).Crashed? <==> Raises(f)
    ensures Raises(f) ==> Handle(f, target, desiredExt).error == RaisedError(f)
  {
  }

  /** Entries with the `.webp` extension, in any letter case, are skipped
      whatever the rest of the descriptor says: they are never opened. */
  lemma WebpNeverOpened(f: ImageFile, g: ImageFile, target: Size, desiredExt: string)
    requires PositiveSize(target)
    requires f.name == g.name && Classify(f.name) == Webp
    ensures Handle(f, target, desiredExt) == SkippedWebp
    ensures Handle(g, target, desiredExt) == Handle(f, target, desiredExt)
  {
  }

  /** Which path an entry takes, stated from its descriptor. Only the six
      image extensions reach the library; every other extension except
      `.webp` is unsupported. */
  lemma HandlePaths(f: ImageFile, target: Size, desiredExt: string)
    requires PositiveSize(target)
    ensures var o := Handle(f, target, desiredExt);
      var image := Classify(f.name) == Image;
      var sized := f.opening.Opened? && f.opening.width > 0 && f.opening.height > 0
        && f.decoding.Decoded?;
      var allowed := !(f.outputExists && !f.overwrite);
      && (o == SkippedWebp <==> Classify(f.name) == Webp)
      && (o == SkippedUnsupported <==> Classify(f.name) == Unsupported)
      && (o.Unreadable? <==> image && f.opening.OpenFailed?)
      && (o.Crashed? <==> Raises(f))
      && (o.Declined? <==> image && sized && !allowed)
      && (o.WriteFailed? <==> image && sized && allowed && f.saving.SaveFailed?)
      && (o.Written? <==> image && sized && allowed && f.saving.SaveOk?)
      && (o.Unreadable? ==> o.error == f.opening.error)
      && (o.WriteFailed? ==> o.error == f.saving.error)
  {
  }

  /** A saved entry opened at a positive size and is written under
      "<root> Resized.<ext>" with a cover fit of that size to the target:
      the resized image covers the target with one side exact, and the crop
      has the target size, inside the resized image and centred in it. */
  lemma WrittenOutput(f: ImageFile, target: Size, desiredExt: string)
    requires PositiveSize(target)
    ensures var o := Handle(f, target, desiredExt);
      o.Written? ==>
        && f.opening.Opened? && f.opening.width > 0 && f.opening.height > 0
        && o.output == SplitExt(f.name).0 + " Resized." + desiredExt
        && CoverFit(Size(f.opening.width, f.opening.height), target, o.fit)
        && (o.fit.resized.width == target.width || o.fit.resized.height == target.height)
  {
    var o := Handle(f, target, desiredExt);
    if o.Written? {
      assert Classify(f.name) == Image && f.opening.Opened?;
      var size := Size(f.opening.width, f.opening.height);
      assert size.width > 0 && size.height > 0 && f.decoding.Decoded?;
      assert o == Written(OutputName(f.name, desiredExt), CoverAndCrop(size, target));
    }
  }

  // ----- The list entries, entry by entry -----

  /** An entry is in `write_failures` exactly when some entry's path was a
      failed save, with the save's error as the reason. */
  lemma {:induction false} FailuresMembership(files: seq<ImageFile>, body: ImageFile -> Outcome, e: Entry)
    ensures e in Failures(files, body) <==>
      exists j :: 0 <= j < |files| && body(files[j]).WriteFailed?
                  && e == Entry(files[j].name, body(files[j]).error)
  {
    if files != [] {
      var n := |files| - 1;
      FailuresMembership(files[..n], body, e);
      if e in Failures(files, body) && e !in Failures(files[..n], body) {
        assert body(files[n]).WriteFailed? && e == Entry(files[n].name, body(files[n]).error);
      }
      if exists j :: 0 <= j < |files| && body(files[j]).WriteFailed?
                     && e == Entry(files[j].name, body(files[j]).error) {
        var j :| 0 <= j < |files| && body(files[j]).WriteFailed?
                 && e == Entry(files[j].name, body(files[j]).error);
        if j < n {
          assert files[..n][j] == files[j];
        }
      }
    }
  }

  /** An entry is in `skip_details` exactly when some entry's path added it. */
  lemma {:induction false} SkipsMembership(files: seq<ImageFile>, body: ImageFile -> Outcome, e: Entry)
    ensures e in Skips(files, body) <==>
      exists j :: 0 <= j < |files| && SkipEntry(files[j].name, body(files[j])) == [e]
  {
    if files != [] {
      var n := |files| - 1;
      SkipsMembership(files[..n], body, e);
      var added := SkipEntry(files[n].name, body(files[n]));
      if e in Skips(files, body) && e !in Skips(files[..n], body) {
        assert e in added;
        assert added == [e];
      }
      if exists j :: 0 <= j < |files| && SkipEntry(files[j].name, body(files[j])) == [e] {
        var j :| 0 <= j < |files| && SkipEntry(files[j].name, body(files[j])) == [e];
        if j < n {
          assert files[..n][j] == files[j];
        }
      }
    }
  }

  // ----- Properties of a whole run, for any loop body -----

  /** Without cancellation a loop that returns has handled every entry, its
      lists are the reference lists, and every entry contributed exactly one
      skip, failure or saved output. */
  lemma NoCancelLoopHandlesEveryFile(files: seq<ImageFile>, body: ImageFile -> Outcome)
    ensures var r := Loop(files, 0, body, Never, NoTally);
      r.Returned? ==>
        && r.tally.processed == |files|
        && r.tally.skipDetails == Skips(files, body)
        && r.tally.writeFailures == Failures(files, body)
        && |r.tally.skipDetails| + |r.tally.writeFailures| + |Outputs(files, body)| == |files|
  {
    LoopMatchesReference(files, 0, body, Never, NoTally);
    assert files[..|files|] == files;
    if !Crashes(files, body) {
      TallyCountsEveryFile(files, body);
    }
  }

  /** Cancelling before entry `c` gives what an uncancelled loop over the
      first `c` entries gives: `c` handled, and nothing from the rest. */
  lemma CancelledLoopIsPrefixLoop(files: seq<ImageFile>, c: nat, body: ImageFile -> Outcome)
    requires c <= |files|
    ensures var a := Loop(files, 0, body, Before(c), NoTally);
      var b := Loop(files[..c], 0, body, Never, NoTally);
      && (a.Returned? <==> b.Returned?)
      && (a.Returned? ==>
            && a.tally.processed == c == b.tally.processed
            && a.tally.skipDetails == b.tally.skipDetails
            && a.tally.writeFailures == b.tally.writeFailures)
  {
    var a := Loop(files, 0, body, Before(c), NoTally);
    var b := Loop(files[..c], 0, body, Never, NoTally);
    RunFromStart(files, body, Before(c));
    RunFromStart(files[..c], body, Never);
    assert Horizon(Before(c), |files|) == c == Horizon(Never, |files[..c]|);
    assert files[..c][..c] == files[..c];
    if a.Returned? {
      assert b.Returned?;
      assert a.tally.skipDetails == Skips(files[..c], body) == b.tally.skipDetails;
      assert a.tally.writeFailures == Failures(files[..c], body) == b.tally.writeFailures;
    }
  }

  /** Every entry of a returned run's `write_failures` comes from a handled
      entry whose path was a failed save, with that save's error. */
  lemma LoopFailuresFrom(files: seq<ImageFile>, body: ImageFile -> Outcome, cancel: Cancel, e: Entry)
    ensures var r := Loop(files, 0, body, cancel, NoTally);
      r.Returned? && e in r.tally.writeFailures ==>
        exists j :: 0 <= j < r.tally.processed && j < |files| && body(files[j]).WriteFailed?
          && e == Entry(files[j].name, body(files[j]).error)
  {
    var h := Horizon(cancel, |files|);
    var r := Loop(files, 0, body, cancel, NoTally);
    LoopMatchesReference(files, 0, body, cancel, NoTally);
    if r.Returned? && e in r.tally.writeFailures {
      FailuresMembership(files[..h], body, e);
      var j :| 0 <= j < h && body(files[..h][j]).WriteFailed?
               && e == Entry(files[..h][j].name, body(files[..h][j]).error);
      assert files[..h][j] == files[j];
    }
  }

  /** Every handled entry whose path adds a skip entry finds it in the
      returned run's `skip_details`. */
  lemma LoopRecordsSkips(files: seq<ImageFile>, body: ImageFile -> Outcome, cancel: Cancel, j: nat)
    ensures var r := Loop(files, 0, body, cancel, NoTally);
      r.Returned? && j < r.tally.processed && j < |files| ==>
        forall e :: SkipEntry(files[j].name, body(files[j])) == [e] ==> e in r.tally.skipDetails
  {
    var h := Horizon(cancel, |files|);
    var r := Loop(files, 0, body, cancel, NoTally);
    LoopMatchesReference(files, 0, body, cancel, NoTally);
    if r.Returned? && j < r.tally.processed && j < |files| {
      assert files[..h][j] == files[j];
      forall e | SkipEntry(files[j].name, body(files[j])) == [e]
        ensures e in r.tally.skipDetails
      {
        SkipsMembership(files[..h], body, e);
      }
    }
  }

  // ----- Properties of a whole run of the resizer -----

  /** Without cancellation a run that returns has handled every entry, and
      every entry contributed exactly one skip, failure or saved output. */
  lemma NoCancelHandlesEveryFile(files: seq<ImageFile>, target: Size, desiredExt: string)
    requires PositiveSize(target)
    ensures var r := ProcessImagesInFolder(files, target, desiredExt, Never);
      var body := BodyFor(target, desiredExt);
      r.Returned? ==>
        && r.tally.processed == |files|
        && r.tally.skipDetails == Skips(files, body)
        && r.tally.writeFailures == Failures(files, body)
        && |r.tally.skipDetails| + |r.tally.writeFailures| + |Outputs(files, body)| == |files|
  {
    NoCancelLoopHandlesEveryFile(files, BodyFor(target, desiredExt));
  }

  /** Cancelling before entry `c` returns what a run over the first `c`
      entries alone returns: `c` handled, and no list entry from the rest. */
  lemma CancelledRunIsPrefixRun(files: seq<ImageFile>, c: nat, target: Size, desiredExt: string)
    requires PositiveSize(target) && c <= |files|
    ensures var a := ProcessImagesInFolder(files, target, desiredExt, Before(c));
      var b := ProcessImagesInFolder(files[..c], target, desiredExt, Never);
      && (a.Returned? <==> b.Returned?)
      && (a.Returned? ==>
            && a.tally.processed == c == b.tally.processed
            && a.tally.skipDetails == b.tally.skipDetails
            && a.tally.writeFailures == b.tally.writeFailures)
  {
    CancelledLoopIsPrefixLoop(files, c, BodyFor(target, desiredExt));
  }

  /** A file lands in `write_failures` only if it has an image extension,
      opened with non-zero sides, was not declined for overwriting, and its
      save failed; the recorded reason is the save's error. */
  lemma WriteFailureOnlyIf(files: seq<ImageFile>, target: Size, desiredExt: string, cancel: Cancel, e: Entry)
    requires PositiveSize(target)
    ensures var r := ProcessImagesInFolder(files, target, desiredExt, cancel);
      r.Returned? && e in r.tally.writeFailures ==>
        exists j :: 0 <= j < r.tally.processed && files[j].name == e.file
          && Classify(files[j].name) == Image
          && files[j].opening.Opened? && files[j].opening.width > 0 && files[j].opening.height > 0
          && files[j].decoding.Decoded?
          && !(files[j].outputExists && !files[j].overwrite)
          && files[j].saving == SaveFailed(e.reason)
  {
    var body := BodyFor(target, desiredExt);
    var r := ProcessImagesInFolder(files, target, desiredExt, cancel);
    LoopFailuresFrom(files, body, cancel, e);
    if r.Returned? && e in r.tally.writeFailures {
      var j :| 0 <= j < r.tally.processed && j < |files| && body(files[j]).WriteFailed?
               && e == Entry(files[j].name, body(files[j]).error);
      HandlePaths(files[j], target, desiredExt);
    }
  }

  /** Every handled `.webp` entry is in `skip_details` with the `.webp`
      reason, and every handled entry of an unsupported kind with the
      unsupported reason. */
  lemma SkippedKindsRecorded(files: seq<ImageFile>, target: Size, desiredExt: string, cancel: Cancel, j: nat)
    requires PositiveSize(target)
    ensures var r := ProcessImagesInFolder(files, target, desiredExt, cancel);
      r.Returned? && j < r.tally.processed ==>
        && (Classify(files[j].name) == Webp ==> Entry(files[j].name, WebpReason) in r.tally.skipDetails)
        && (Classify(files[j].name) == Unsupported ==>
              Entry(files[j].name, UnsupportedReason) in r.tally.skipDetails)
  {
    var r := ProcessImagesInFolder(files, target, desiredExt, cancel);
    LoopRecordsSkips(files, BodyFor(target, desiredExt), cancel, j);
    if r.Returned? && j < r.tally.processed {
      HandlePaths(files[j], target, desiredExt);
    }
  }
}
