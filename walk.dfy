/**
 * `Converter.Walk`: the callback run on every entry of the directory walk,
 * and the walk itself, which stops at the first error the callback returns.
 * The walk's traversal order and every file-system or codec call are given
 * as data: an entry lists its path, whether the walk reported an error for
 * it, whether it is a directory, and how each of open, create, decode and
 * encode would turn out.
 */
module ImgconvWalk {
  import opened GoStrings
  import opened Imgconv

  /** How each effect of processing one file turns out. */
  datatype FileOutcome = FileOutcome(openOk: bool, createOk: bool, decodeOk: bool, encodeOk: bool)

  /** One visit of the walk: the `path`, `err` and `info.IsDir()` the callback receives. */
  datatype Entry = Entry(path: string, walkError: bool, isDir: bool, io: FileOutcome)

  /** A source file and the output file created for it. */
  datatype Job = Job(source: string, dest: string)

  /** The errors that end a walk. */
  datatype WalkError =
    | WalkFailed(path: string)
    | OpenFailed(path: string)
    | CreateFailed(dest: string)
    | ConvertFailed(cause: ConvertError)

  /** What one call of the callback does: skip, convert, or fail after creating 0 or 1 outputs. */
  datatype Step = Skipped | Converted(job: Job) | Failed(err: WalkError, created: seq<Job>)

  /** Everything went right for this entry: it is skipped or fully converted. */
  predicate EntryOk(c: Converter, e: Entry)
  {
    !e.walkError &&
    (Selected(c, e.path, e.isDir) ==>
      e.io.openOk && e.io.createOk && e.io.decodeOk && c.toExt in Supported && e.io.encodeOk)
  }

  /**
   * The callback passed to `filepath.Walk`: a walk error is returned as is;
   * directories and files whose normalised extension is not the stored
   * source format are skipped; otherwise open the file, create the output,
   * and convert.
   */
  function Visit(c: Converter, e: Entry): (s: Step)
    ensures s.Failed? <==> !EntryOk(c, e)
    ensures !e.walkError ==> (s.Skipped? <==> !Selected(c, e.path, e.isDir))
    ensures s.Converted? ==> s.job == Job(e.path, Destination(e.path, c.toExt))
    ensures s.Failed? ==> s.created == [] || s.created == [Job(e.path, Destination(e.path, c.toExt))]
    ensures s.Failed? && s.created != [] <==> s.Failed? && s.err.ConvertFailed?
    // the order of the effects: a walk error, then open, create, and convert
    ensures e.walkError ==> s == Failed(WalkFailed(e.path), [])
    ensures !e.walkError && Selected(c, e.path, e.isDir) && !e.io.openOk ==>
      s == Failed(OpenFailed(e.path), [])
    ensures !e.walkError && Selected(c, e.path, e.isDir) && e.io.openOk && !e.io.createOk ==>
      s == Failed(CreateFailed(Destination(e.path, c.toExt)), [])
    ensures !e.walkError && Selected(c, e.path, e.isDir) && e.io.openOk && e.io.createOk && !EntryOk(c, e) ==>
      s == Failed(ConvertFailed(Convert(c.toExt, e.io.decodeOk, e.io.encodeOk).error),
                  [Job(e.path, Destination(e.path, c.toExt))])
  {
    if e.walkError then Failed(WalkFailed(e.path), [])
    else if e.isDir then Skipped
    else if NormalizedExt(e.path) != c.fromExt then Skipped
    else if !e.io.openOk then Failed(OpenFailed(e.path), [])
    else
      var dest := Destination(e.path, c.toExt);
      if !e.io.createOk then Failed(CreateFailed(dest), [])
      else match Convert(c.toExt, e.io.decodeOk, e.io.encodeOk)
        case Ok(_) => Converted(Job(e.path, dest))
        case Err(cause) => Failed(ConvertFailed(cause), [Job(e.path, dest)])
  }

  /** The outputs created by a walk, and the error it returned, if any. */
  datatype Outcome = Outcome(created: seq<Job>, err: Option<WalkError>)

  /** The walk over `entries`, visited in order, stopping at the first failed step. */
  function WalkSpec(c: Converter, entries: seq<Entry>): Outcome
  {
    if entries == [] then Outcome([], None)
    else match Visit(c, entries[0])
      case Skipped => WalkSpec(c, entries[1..])
      case Converted(job) =>
        var rest := WalkSpec(c, entries[1..]);
        Outcome([job] + rest.created, rest.err)
      case Failed(err, created) => Outcome(created, Some(err))
  }

  /** The jobs for the files the filter selects, whatever their outcomes. */
  function SelectedJobs(c: Converter, entries: seq<Entry>): (jobs: seq<Job>)
    ensures |jobs| <= |entries|
    ensures forall j :: j in jobs ==>
      (exists i :: 0 <= i < |entries| && Selected(c, entries[i].path, entries[i].isDir) &&
         j == Job(entries[i].path, Destination(entries[i].path, c.toExt)))
    ensures forall i :: 0 <= i < |entries| && Selected(c, entries[i].path, entries[i].isDir) ==>
      Job(entries[i].path, Destination(entries[i].path, c.toExt)) in jobs
  {
    if entries == [] then []
    else
      var e := entries[0];
      var rest := SelectedJobs(c, entries[1..]);
      assert forall i :: 1 <= i < |entries| ==> entries[i] == entries[1..][i - 1];
      if Selected(c, e.path, e.isDir) then [Job(e.path, Destination(e.path, c.toExt))] + rest else rest
  }

  /**
   * `Walk`: visits the entries in order and returns at the first error;
   * `created` lists every output file created, including the one whose
   * decoding or encoding failed.
   */
  method Walk(c: Converter, entries: seq<Entry>) returns (created: seq<Job>, err: Option<WalkError>)
    ensures Outcome(created, err) == WalkSpec(c, entries)
  {
    created := [];
    var i := 0;
    while i < |entries|
      invariant 0 <= i <= |entries|
      invariant WalkSpec(c, entries) ==
        var rest := WalkSpec(c, entries[i..]); Outcome(created + rest.created, rest.err)
    {
      assert entries[i..][1..] == entries[i + 1..];
      match Visit(c, entries[i]) {
        case Skipped =>
        case Converted(job) =>
          created := created + [job];
        case Failed(e, partial) =>
          return created + partial, Some(e);
      }
      i := i + 1;
    }
    err := None;
  }

  /**
   * A walk succeeds exactly when every entry is skipped or converted, and
   * then it has created one output for each selected file, in walk order.
   */
  lemma {:induction false} WalkSucceeds(c: Converter, entries: seq<Entry>)
    ensures WalkSpec(c, entries).err == None <==> forall i :: 0 <= i < |entries| ==> EntryOk(c, entries[i])
    ensures WalkSpec(c, entries).err == None ==> WalkSpec(c, entries).created == SelectedJobs(c, entries)
  {
    if entries != [] {
      WalkSucceeds(c, entries[1..]);
      assert forall i :: 1 <= i < |entries| ==> entries[i] == entries[1..][i - 1];
    }
  }

  /**
   * A walk that fails stops at the first entry whose step fails: every entry
   * before it was skipped or converted, the error is that entry's, and the
   * outputs are those of the selected files before it, plus its own output
   * when the failure came after creating it.
   */
  lemma {:induction false} WalkStopsAtFirstError(c: Converter, entries: seq<Entry>) returns (k: nat)
    requires WalkSpec(c, entries).err.Some?
    ensures k < |entries|
    ensures forall i :: 0 <= i < k ==> EntryOk(c, entries[i])
    ensures !EntryOk(c, entries[k])
    ensures WalkSpec(c, entries).err == Some(Visit(c, entries[k]).err)
    ensures WalkSpec(c, entries).created == SelectedJobs(c, entries[..k]) + Visit(c, entries[k]).created
  {
    if EntryOk(c, entries[0]) {
      var k' := WalkStopsAtFirstError(c, entries[1..]);
      k := k' + 1;
      assert entries[k] == entries[1..][k'];
      CreatedBeforeFailure(c, entries, k');
      OkPrefix(c, entries, k');
    } else {
      k := 0;
      assert SelectedJobs(c, entries[..0]) == [] by {
        assert entries[..0] == [];
      }
    }
  }

  lemma OkPrefix(c: Converter, entries: seq<Entry>, k': nat)
    requires |entries| > 0 && EntryOk(c, entries[0]) && k' < |entries|
    requires forall i :: 0 <= i < k' ==> EntryOk(c, entries[1..][i])
    ensures forall i :: 0 <= i < k' + 1 ==> EntryOk(c, entries[i])
  {
    forall i | 0 < i < k' + 1
      ensures EntryOk(c, entries[i])
    {
      assert entries[i] == entries[1..][i - 1];
    }
  }

  /** The step of WalkStopsAtFirstError: a first entry that succeeds adds its job, if any, in front. */
  lemma CreatedBeforeFailure(c: Converter, entries: seq<Entry>, k': nat)
    requires |entries| > 0 && EntryOk(c, entries[0]) && k' < |entries| - 1 && !EntryOk(c, entries[k' + 1])
    requires WalkSpec(c, entries[1..]).created == SelectedJobs(c, entries[1..][..k']) + Visit(c, entries[k' + 1]).created
    ensures WalkSpec(c, entries).created == SelectedJobs(c, entries[..k' + 1]) + Visit(c, entries[k' + 1]).created
  {
    var e, tail, prefix := entries[0], entries[1..], entries[..k' + 1];
    assert prefix[0] == e && prefix[1..] == tail[..k'];
    var before := SelectedJobs(c, tail[..k']);
    var last := Visit(c, entries[k' + 1]).created;
    if Selected(c, e.path, e.isDir) {
      var job := Job(e.path, Destination(e.path, c.toExt));
      assert SelectedJobs(c, prefix) == [job] + before;
      assert WalkSpec(c, entries).created == [job] + (before + last);
      AppendAssoc([job], before, last);
    } else {
      assert SelectedJobs(c, prefix) == before;
    }
  }

  /** A walk in which nothing is selected writes nothing and can only fail with a walk error. */
  lemma {:induction false} NothingSelectedCreatesNothing(c: Converter, entries: seq<Entry>)
    requires forall i :: 0 <= i < |entries| ==> !Selected(c, entries[i].path, entries[i].isDir)
    ensures WalkSpec(c, entries).created == []
    ensures WalkSpec(c, entries).err.Some? ==> WalkSpec(c, entries).err.value.WalkFailed?
  {
    if entries != [] {
      assert forall i :: 0 <= i < |entries[1..]| ==> entries[1..][i] == entries[i + 1];
      NothingSelectedCreatesNothing(c, entries[1..]);
    }
  }

  /**
   * A Converter whose stored source format has an upper-case letter, or is
   * "jpeg", converts nothing, although `New` accepts such formats.
   */
  lemma NonCanonicalSourceCreatesNothing(c: Converter, entries: seq<Entry>)
    requires !IsLower(c.fromExt) || c.fromExt == "jpeg"
    ensures WalkSpec(c, entries).created == []
    ensures WalkSpec(c, entries).err.Some? ==> WalkSpec(c, entries).err.value.WalkFailed?
  {
    forall i | 0 <= i < |entries|
      ensures !Selected(c, entries[i].path, entries[i].isDir)
    {
      NonCanonicalSourceSelectsNothing(c, entries[i].path, entries[i].isDir);
    }
    NothingSelectedCreatesNothing(c, entries);
  }

  /** A walk over directories, with no error reported by the walker, succeeds and creates nothing. */
  lemma OnlyDirectoriesWritesNothing(c: Converter, entries: seq<Entry>)
    requires forall i :: 0 <= i < |entries| ==> entries[i].isDir && !entries[i].walkError
    ensures WalkSpec(c, entries) == Outcome([], None)
  {
    NothingSelectedCreatesNothing(c, entries);
    WalkSucceeds(c, entries);
  }

  /**
   * A target format outside the table passes `New` but fails at the first
   * selected file that decodes, after its output has been created; the walk
   * stops there.
   */
  lemma UnsupportedTargetFailsAtEncode(c: Converter, e: Entry, rest: seq<Entry>)
    requires c.toExt !in Supported
    requires !e.walkError && Selected(c, e.path, e.isDir)
    requires e.io.openOk && e.io.createOk && e.io.decodeOk
    ensures WalkSpec(c, [e] + rest) ==
      Outcome([Job(e.path, Destination(e.path, c.toExt))], Some(ConvertFailed(UnknownFormat)))
  {
    assert ([e] + rest)[0] == e;
  }

  /**
   * Converting png to gif: a readable `stem`.png is converted into `stem`.gif
   * and the walk goes on with the next entry.
   */
  lemma WalkConvertsPngToGif(c: Converter, stem: string, rest: seq<Entry>)
    requires c.fromExt == "png" && c.toExt == "gif"
    ensures
      var e := Entry(stem + ".png", false, false, FileOutcome(true, true, true, true));
      var r := WalkSpec(c, rest);
      WalkSpec(c, [e] + rest) == Outcome([Job(stem + ".png", stem + ".gif")] + r.created, r.err)
  {
    var e := Entry(stem + ".png", false, false, FileOutcome(true, true, true, true));
    PngConvertedToGif(c, stem);
    assert "gif" in Supported;
    WalkConverts(c, e, rest);
  }

  /** Converting png to gif: `stem`.txt is skipped, whatever would happen to it. */
  lemma WalkSkipsTxt(c: Converter, stem: string, io: FileOutcome, rest: seq<Entry>)
    requires c.fromExt == "png"
    ensures WalkSpec(c, [Entry(stem + ".txt", false, false, io)] + rest) == WalkSpec(c, rest)
  {
    TxtSkipped(c, stem);
    WalkSkips(c, Entry(stem + ".txt", false, false, io), rest);
  }

  lemma PngConvertedToGif(c: Converter, stem: string)
    requires c.fromExt == "png" && c.toExt == "gif"
    ensures Selected(c, stem + ".png", false)
    ensures Destination(stem + ".png", c.toExt) == stem + ".gif"
  {
    assert stem + ".png" == stem + "." + "png";
    assert stem + ".gif" == stem + "." + "gif";
    assert ToLower("png") == "png";
    SelectedByExtension(c, stem, "png");
    DestinationReplacesExtension(stem, "png", "gif");
  }

  lemma TxtSkipped(c: Converter, stem: string)
    requires c.fromExt == "png"
    ensures !Selected(c, stem + ".txt", false)
  {
    assert stem + ".txt" == stem + "." + "txt";
    assert ToLower("txt") == "txt";
    SelectedByExtension(c, stem, "txt");
  }

  /** One step of the walk over an entry that is skipped. */
  lemma WalkSkips(c: Converter, e: Entry, rest: seq<Entry>)
    requires !e.walkError && !Selected(c, e.path, e.isDir)
    ensures WalkSpec(c, [e] + rest) == WalkSpec(c, rest)
  {
    assert ([e] + rest)[0] == e && ([e] + rest)[1..] == rest;
  }

  /** One step of the walk over an entry that is converted. */
  lemma WalkConverts(c: Converter, e: Entry, rest: seq<Entry>)
    requires EntryOk(c, e) && Selected(c, e.path, e.isDir)
    ensures WalkSpec(c, [e] + rest) ==
      var r := WalkSpec(c, rest); Outcome([Job(e.path, Destination(e.path, c.toExt))] + r.created, r.err)
  {
    assert ([e] + rest)[0] == e && ([e] + rest)[1..] == rest;
  }

  lemma AppendAssoc(a: seq<Job>, b: seq<Job>, c: seq<Job>)
    ensures a + (b + c) == (a + b) + c
  {
  }
}
