/** The per-sample logic of the `process` and `check` commands.

    A manifest row names a sample and a comma-separated list of input files.
    For each row of its shard a host decides whether to process the sample,
    logs what is wrong with it, uploads its inputs under normalised names,
    creates the results directory, runs the selected pipelines and records
    what ran. File-system queries are parameters; the remote commands, the
    file transfers and the JSON document are modelled as an ordered list of
    effects. */
module Process {
  import opened Wrappers
  import opened Text
  import Sharding

  /** A manifest record with the two columns the script reads. */
  datatype ManifestRow = ManifestRow(sampleId: string, filePath: string)

  /** The command-line arguments of `process`, as the strings Fabric passes. */
  datatype Options = Options(outputs: string, expression: string, fusions: string)

  /** What the script learns from its surroundings: the operator name, the
      script's own revision, whether a local input file exists, and whether
      a path exists on the worker (relative to `/mnt`). */
  datatype Env = Env(
    user: string,
    revision: string,
    isFile: string -> bool,
    remoteExists: string -> bool)

  /** The pipelines `process` can run, in the order it runs them. */
  datatype Pipeline = Expression | Fusion

  /** The image name each pipeline reports (fabfile.py lines 121 and 127). */
  function Image(p: Pipeline): string
  {
    match p
    case Expression => "quay.io/ucsc_cgl/rnaseq-cgl-pipeline:3.2.1-1"
    case Fusion => "jpfeil/star-fusion:0.0.2"
  }

  /** The make target each pipeline runs on the worker. */
  function MakeTarget(p: Pipeline): string
  {
    match p
    case Expression => "expression"
    case Fusion => "fusion"
  }

  /** The entries appended to the error log. */
  datatype ErrorEntry =
    | AlreadyExists(dir: string)
    | MissingInput(file: string, sampleId: string)
    | WrongFileCount(sampleId: string, files: seq<string>)
    | UploadSourceMissing(sampleId: string, file: string)

  /** The `methods.json` record, without its start and end timestamps. */
  datatype Methods = Methods(user: string, revision: string, inputs: seq<string>, pipelines: seq<string>)

  /** The observable steps of processing one sample, in order. */
  datatype Effect =
    | LogError(entry: ErrorEntry)
    | ResetMachine
    | Upload(source: string, target: string)
    | MakeResults(dir: string)
    | RunMake(target: string)
    | FetchOutputs(dir: string)
    | WriteMethods(path: string, record: Methods)

  // ---------------------------------------------------------------------
  // Error log text.

  /** Python 2 `repr` of a list of strings without quotes or backslashes. */
  function ListRepr(xs: seq<string>): string
  {
    "[" + QuotedItems(xs) + "]"
  }

  function QuotedItems(xs: seq<string>): string
  {
    if |xs| == 0 then ""
    else if |xs| == 1 then "'" + xs[0] + "'"
    else "'" + xs[0] + "', " + QuotedItems(xs[1..])
  }

  /** The line written to `errors.txt` for each entry. It starts with the
      directory or file concerned, or with a fixed phrase and the sample id,
      and a line about one file ends with a fixed phrase or with the file. */
  function Message(e: ErrorEntry): (m: string)
    ensures e.AlreadyExists? ==> e.dir <= m && EndsWith(m, " already exists")
    ensures e.MissingInput? ==> e.file <= m && EndsWith(m, " does not exist")
    ensures e.WrongFileCount? ==> "Expected 2 samples files " + e.sampleId + " " <= m
    ensures e.UploadSourceMissing? ==> "Unable to find file: " + e.sampleId + " " <= m && EndsWith(m, e.file)
  {
    match e
    case AlreadyExists(dir) => dir + " already exists"
    case MissingInput(file, id) => file + " for " + id + " does not exist"
    case WrongFileCount(id, files) => "Expected 2 samples files " + id + " " + ListRepr(files)
    case UploadSourceMissing(id, file) => "Unable to find file: " + id + " " + file
  }

  /** The error log tells entries apart: a line names one results
      directory, or, for a given sample, one missing or unreadable file; and
      a skipped directory never reads like a missing input. */
  lemma MessageNamesEntry(d1: string, d2: string, f1: string, f2: string, id: string)
    ensures Message(AlreadyExists(d1)) == Message(AlreadyExists(d2)) ==> d1 == d2
    ensures Message(MissingInput(f1, id)) == Message(MissingInput(f2, id)) ==> f1 == f2
    ensures Message(UploadSourceMissing(id, f1)) == Message(UploadSourceMissing(id, f2)) ==> f1 == f2
    ensures Message(AlreadyExists(d1)) != Message(MissingInput(f1, id))
  {
    if Message(AlreadyExists(d1)) == Message(AlreadyExists(d2)) {
      SamePrefix(Message(AlreadyExists(d1)), d1, d2);
    }
    if Message(MissingInput(f1, id)) == Message(MissingInput(f2, id)) {
      SamePrefix(Message(MissingInput(f1, id)), f1, f2);
    }
    if Message(UploadSourceMissing(id, f1)) == Message(UploadSourceMissing(id, f2)) {
      SameSuffix(Message(UploadSourceMissing(id, f1)), f1, f2);
    }
    DistinctEndings(Message(AlreadyExists(d1)), Message(MissingInput(f1, id)));
  }

  lemma DistinctEndings(m: string, n: string)
    requires EndsWith(m, " already exists") && EndsWith(n, " does not exist")
    ensures m != n
  {
    assert m[|m| - 14] == m[|m| - 15..][1] == 'a';
    assert n[|n| - 14] == n[|n| - 15..][1] == 'd';
    if |m| == |n| {
      assert m[|m| - 14] != n[|m| - 14];
    }
  }

  /** Two prefixes of one string of the same length are equal. */
  lemma SamePrefix(m: string, a: string, b: string)
    requires a <= m && b <= m && |a| == |b|
    ensures a == b
  {
    assert a == m[..|a|] && b == m[..|b|];
  }

  /** Two suffixes of one string of the same length are equal. */
  lemma SameSuffix(m: string, a: string, b: string)
    requires EndsWith(m, a) && EndsWith(m, b) && |a| == |b|
    ensures a == b
  {
  }

  // ---------------------------------------------------------------------
  // Parsing the `File Path` column.

  /** `map(str.strip, row["File Path"].split(","))`: one entry per
      comma-separated field, surrounding whitespace removed, in field order. */
  function SampleFiles(row: ManifestRow): (files: seq<string>)
    ensures |files| == Count(row.filePath, ',') + 1
    ensures forall i :: 0 <= i < |files| ==>
      files[i] == Strip(Split(row.filePath, ',')[i]) && ',' !in files[i]
  {
    var fields := Split(row.filePath, ',');
    seq(|fields|, i requires 0 <= i < |fields| =>
      assert forall c :: c in Strip(fields[i]) ==> c in fields[i] by {
        StripInfix(fields[i]);
      }
      Strip(fields[i]))
  }

  lemma StripInfix(s: string)
    ensures forall c :: c in Strip(s) ==> c in s
  {
    var l := StripLeft(s);
    InnerSlice(s, l, StripRight(l));
  }

  /** A prefix of a suffix of `s` holds only characters of `s`. */
  lemma InnerSlice(s: string, l: string, r: string)
    requires |l| <= |s| && l == s[|s| - |l|..]
    requires |r| <= |l| && r == l[..|r|]
    ensures forall c :: c in r ==> c in s
  {
    forall c | c in r ensures c in s {
      var i :| 0 <= i < |r| && r[i] == c;
      assert l[i] == c;
      assert s[|s| - |l| + i] == c;
    }
  }

  /** A whitespace-padded field around each file name. */
  ghost predicate Padded(field: string, file: string)
  {
    exists a, b :: AllSpace(a) && AllSpace(b) && field == a + file + b
  }

  /** A file name as it can appear in the manifest: no comma and no
      surrounding whitespace. */
  predicate PlainName(f: string)
  {
    ',' !in f && (f == "" || (!IsSpace(f[0]) && !IsSpace(f[|f| - 1])))
  }

  /** Writing file names into the `File Path` column with commas and any
      surrounding whitespace, then parsing the column, gives the names back. */
  lemma SampleFilesRoundTrip(id: string, fields: seq<string>, files: seq<string>)
    requires |fields| == |files| >= 1
    requires forall i :: 0 <= i < |files| ==> PlainName(files[i])
    requires forall i :: 0 <= i < |fields| ==> ',' !in fields[i] && Padded(fields[i], files[i])
    ensures SampleFiles(ManifestRow(id, Join(fields, ','))) == files
  {
    var column := Join(fields, ',');
    SplitJoin(fields, ',');
    assert Split(column, ',') == fields;
    var parsed := SampleFiles(ManifestRow(id, column));
    forall i | 0 <= i < |files| ensures parsed[i] == files[i] {
      assert parsed[i] == Strip(fields[i]);
      PaddedStrip(fields[i], files[i]);
    }
  }

  /** Stripping a padded field gives back the plain name inside it. */
  lemma PaddedStrip(field: string, file: string)
    requires PlainName(file) && Padded(field, file)
    ensures Strip(field) == file
  {
    var a, b :| AllSpace(a) && AllSpace(b) && field == a + file + b;
    StripDecomposition(a, file, b);
  }

  // ---------------------------------------------------------------------
  // Upload names.

  /** The name an input is uploaded under (fabfile.py lines 204-205):
      `r1.` becomes `R1.` and then `r2.` becomes `R2.`. */
  function UploadName(base: string): (name: string)
    ensures |name| == |base|
  {
    Replace(Replace(base, "r1.", "R1."), "r2.", "R2.")
  }

  /** A lower-case read marker `r1.` or `r2.` starts at position `i`. */
  predicate ReadMarkerAt(s: string, i: int)
  {
    OccursAt(s, "r1.", i) || OccursAt(s, "r2.", i)
  }

  /** Upload-name normalisation keeps the length, upper-cases the `r` of
      every `r1.` and `r2.`, and leaves every other character alone. */
  lemma UploadNameSpec(base: string)
    ensures |UploadName(base)| == |base|
    ensures forall i :: 0 <= i < |base| ==>
      UploadName(base)[i] == (if ReadMarkerAt(base, i) then 'R' else base[i])
  {
    assert "r1." == ['r'] + "1." && "R1." == ['R'] + "1.";
    assert "r2." == ['r'] + "2." && "R2." == ['R'] + "2.";
    ReplaceFirstChar(base, 'r', 'R', "1.");
    var once := Replace(base, "r1.", "R1.");
    ReplaceFirstChar(once, 'r', 'R', "2.");
    forall i | 0 <= i < |base| ensures OccursAt(once, "r2.", i) == OccursAt(base, "r2.", i) {
      SecondMarkerUnchanged(base, once, i);
    }
  }

  lemma SecondMarkerUnchanged(base: string, once: string, i: int)
    requires FirstCharsRewritten(base, "r1.", 'R', once)
    requires 0 <= i < |base|
    ensures OccursAt(once, "r2.", i) == OccursAt(base, "r2.", i)
  {
    OccursAt3(base, "r2.", i);
    OccursAt3(once, "r2.", i);
    if i + 3 <= |base| {
      OccursAt3(base, "r1.", i);
      OccursAt3(base, "r1.", i + 1);
      OccursAt3(base, "r1.", i + 2);
    }
  }

  /** After normalisation no lower-case read marker is left. */
  lemma UploadNameNoMarkers(base: string)
    ensures forall i :: 0 <= i < |base| ==> !ReadMarkerAt(UploadName(base), i)
  {
    UploadNameSpec(base);
    var r := UploadName(base);
    forall i | 0 <= i < |base| ensures !ReadMarkerAt(r, i) {
      NoMarkerLeft(base, r, i);
    }
  }

  /** One position of `UploadNameNoMarkers`: a marker in the result would
      need an unrewritten marker in the input. */
  lemma NoMarkerLeft(base: string, r: string, i: int)
    requires |r| == |base|
    requires forall j :: 0 <= j < |base| ==> r[j] == (if ReadMarkerAt(base, j) then 'R' else base[j])
    requires 0 <= i < |base|
    ensures !ReadMarkerAt(r, i)
  {
    OccursAt3(r, "r1.", i);
    OccursAt3(r, "r2.", i);
    OccursAt3(base, "r1.", i);
    OccursAt3(base, "r2.", i);
    if i + 3 <= |base| {
      assert r[i] == (if ReadMarkerAt(base, i) then 'R' else base[i]);
      assert r[i + 1] == (if ReadMarkerAt(base, i + 1) then 'R' else base[i + 1]);
      assert r[i + 2] == (if ReadMarkerAt(base, i + 2) then 'R' else base[i + 2]);
    }
  }

  /** Normalising an already normalised name changes nothing. */
  lemma UploadNameIdempotent(base: string)
    ensures UploadName(UploadName(base)) == UploadName(base)
  {
    var r := UploadName(base);
    UploadNameSpec(base);
    UploadNameNoMarkers(base);
    assert forall i :: 0 <= i < |r| ==> !OccursAt(r, "r1.", i) && !OccursAt(r, "r2.", i) by {
      forall i | 0 <= i < |r| ensures !OccursAt(r, "r1.", i) && !OccursAt(r, "r2.", i) {
        assert !ReadMarkerAt(r, i);
      }
    }
    ReplaceAbsent(r, "r1.", "R1.");
    ReplaceAbsent(r, "r2.", "R2.");
  }

  // ---------------------------------------------------------------------
  // The phases of processing one sample.

  /** Where the results of a sample go, and what the skip check looks at. */
  function ResultsDir(outputs: string, id: string): string
  {
    outputs + "/" + id
  }

  /** The first existence loop (fabfile.py lines 176-179): one log entry per
      missing file and nothing else; its `continue` only moves to the next
      file. */
  function MissingInputLog(files: seq<string>, id: string, isFile: string -> bool): (log: seq<Effect>)
    ensures |log| <= |files|
    ensures forall e :: e in log ==>
      e.LogError? && e.entry.MissingInput? && e.entry.sampleId == id &&
      e.entry.file in files && !isFile(e.entry.file)
    ensures forall f :: f in files && !isFile(f) ==> LogError(MissingInput(f, id)) in log
  {
    if |files| == 0 then []
    else
      var rest := MissingInputLog(files[1..], id, isFile);
      assert forall f :: f in files[1..] ==> f in files;
      if isFile(files[0]) then rest else [LogError(MissingInput(files[0], id))] + rest
  }

  /** The first existence loop over `a + b` logs the entries for `a`, then
      those for `b`: the log keeps file order and one entry per listed
      missing file, repeats included. */
  lemma {:induction false} MissingInputLogAppend(a: seq<string>, b: seq<string>, id: string, isFile: string -> bool)
    ensures MissingInputLog(a + b, id, isFile) == MissingInputLog(a, id, isFile) + MissingInputLog(b, id, isFile)
    decreases |a|
  {
    if |a| == 0 {
      assert a + b == b;
    } else {
      assert (a + b)[0] == a[0] && (a + b)[1..] == a[1..] + b;
      MissingInputLogAppend(a[1..], b, id, isFile);
      var here := if isFile(a[0]) then [] else [LogError(MissingInput(a[0], id))];
      AppendAssoc(here, MissingInputLog(a[1..], id, isFile), MissingInputLog(b, id, isFile));
    }
  }

  /** One iteration of the first existence loop: the next file adds an
      entry exactly when it is missing. */
  lemma MissingInputLogSnoc(a: seq<string>, f: string, id: string, isFile: string -> bool)
    ensures MissingInputLog(a + [f], id, isFile) ==
      MissingInputLog(a, id, isFile) + if isFile(f) then [] else [LogError(MissingInput(f, id))]
  {
    MissingInputLogAppend(a, [f], id, isFile);
    assert [f][1..] == [];
  }

  /** The copy loop (fabfile.py lines 198-205). A missing file is logged
      and skipped. An existing file is put under its normalised name unless
      `samples/` on the worker already holds its plain basename: either it
      was there before the loop (`env.remoteExists`), or an earlier file of
      the same row was put there (`written`, the targets put so far). */
  function Uploads(files: seq<string>, id: string, env: Env, written: set<string>): (effects: seq<Effect>)
    ensures forall e :: e in effects ==>
      || (e.LogError? && e.entry.UploadSourceMissing? && e.entry.sampleId == id &&
          e.entry.file in files && !env.isFile(e.entry.file))
      || (e.Upload? && e.source in files && env.isFile(e.source) &&
          !env.remoteExists("samples/" + Basename(e.source)) &&
          "samples/" + Basename(e.source) !in written &&
          e.target == "samples/" + UploadName(Basename(e.source)))
    ensures forall f :: f in files && !env.isFile(f) ==> LogError(UploadSourceMissing(id, f)) in effects
  {
    if |files| == 0 then []
    else
      var here := UploadStep(files[0], id, env, written);
      var rest := Uploads(files[1..], id, env, written + Targets(here));
      assert forall g :: g in files[1..] ==> g in files;
      here + rest
  }

  /** One iteration of the copy loop, given the targets put so far. */
  function UploadStep(f: string, id: string, env: Env, written: set<string>): seq<Effect>
  {
    var plain := "samples/" + Basename(f);
    if !env.isFile(f) then [LogError(UploadSourceMissing(id, f))]
    else if !env.remoteExists(plain) && plain !in written then [Upload(f, "samples/" + UploadName(Basename(f)))]
    else []
  }

  /** Every existing input whose plain basename the worker lacks is put,
      or an earlier input was already put under that plain name. */
  lemma {:induction false} UploadsComplete(files: seq<string>, id: string, env: Env, written: set<string>, f: string)
    requires f in files && env.isFile(f)
    requires !env.remoteExists("samples/" + Basename(f)) && "samples/" + Basename(f) !in written
    ensures var effects := Uploads(files, id, env, written);
      Upload(f, "samples/" + UploadName(Basename(f))) in effects || "samples/" + Basename(f) in Targets(effects)
    decreases |files|
  {
    var plain := "samples/" + Basename(f);
    var here := UploadStep(files[0], id, env, written);
    var w := written + Targets(here);
    var rest := Uploads(files[1..], id, env, w);
    TargetsAppend(here, rest);
    if files[0] != f {
      assert f in files[1..];
      if plain in Targets(here) {
      } else {
        UploadsComplete(files[1..], id, env, w, f);
      }
    }
  }

  /** Every upload among `effects` is of a file whose plain basename is
      neither in `written` nor among the targets put before it. */
  predicate FreshUploads(effects: seq<Effect>, written: set<string>)
  {
    forall i {:trigger effects[..i]} :: 0 <= i < |effects| && effects[i].Upload? ==>
      "samples/" + Basename(effects[i].source) !in written + Targets(effects[..i])
  }

  /** An upload is made only when its plain basename is neither in the
      given set nor among the targets put by the earlier iterations of the
      loop: a file listed again under the same plain name is not put a
      second time. */
  lemma {:induction false} UploadsOnlyFresh(files: seq<string>, id: string, env: Env, written: set<string>)
    ensures FreshUploads(Uploads(files, id, env, written), written)
    decreases |files|
  {
    if |files| > 0 {
      var here := UploadStep(files[0], id, env, written);
      var w := written + Targets(here);
      var rest := Uploads(files[1..], id, env, w);
      assert Uploads(files, id, env, written) == here + rest;
      UploadsOnlyFresh(files[1..], id, env, w);
      FreshUploadsPrepend(here, rest, written);
    }
  }

  /** One iteration's effects in front of a fresh remainder, which was
      checked against the targets that iteration put, stay fresh. */
  lemma FreshUploadsPrepend(here: seq<Effect>, rest: seq<Effect>, written: set<string>)
    requires |here| <= 1
    requires |here| == 1 && here[0].Upload? ==> "samples/" + Basename(here[0].source) !in written
    requires FreshUploads(rest, written + Targets(here))
    ensures FreshUploads(here + rest, written)
  {
    var effects := here + rest;
    forall i | 0 <= i < |effects| && effects[i].Upload?
      ensures "samples/" + Basename(effects[i].source) !in written + Targets(effects[..i])
    {
      if i < |here| {
        assert "samples/" + Basename(effects[i].source) !in written + Targets(effects[..i]) by {
          FreshHead(here, rest, written, i);
        }
      } else {
        assert "samples/" + Basename(effects[i].source) !in written + Targets(effects[..i]) by {
          FreshPastHead(here, rest, written, i);
        }
      }
    }
  }

  /** The step of `FreshUploadsPrepend` for the iteration's own upload. */
  lemma FreshHead(here: seq<Effect>, rest: seq<Effect>, written: set<string>, i: nat)
    requires i < |here| <= 1 && (here + rest)[i].Upload?
    requires |here| == 1 && here[0].Upload? ==> "samples/" + Basename(here[0].source) !in written
    ensures "samples/" + Basename((here + rest)[i].source) !in written + Targets((here + rest)[..i])
  {
    assert (here + rest)[..i] == [];
    assert (here + rest)[i] == here[0];
  }

  /** The step of `FreshUploadsPrepend` for an upload of the remainder. */
  lemma FreshPastHead(here: seq<Effect>, rest: seq<Effect>, written: set<string>, i: nat)
    requires |here| <= i < |here| + |rest| && (here + rest)[i].Upload?
    requires FreshUploads(rest, written + Targets(here))
    ensures "samples/" + Basename((here + rest)[i].source) !in written + Targets((here + rest)[..i])
  {
    var j := i - |here|;
    assert (here + rest)[i] == rest[j];
    PrefixPastHead(here, rest, i);
    TargetsAppend(here, rest[..j]);
  }

  /** The remote paths a list of effects puts files at. */
  function Targets(effects: seq<Effect>): set<string>
  {
    if |effects| == 0 then {}
    else (if effects[0].Upload? then {effects[0].target} else {}) + Targets(effects[1..])
  }

  lemma {:induction false} TargetsAppend(a: seq<Effect>, b: seq<Effect>)
    ensures Targets(a + b) == Targets(a) + Targets(b)
    decreases |a|
  {
    if |a| == 0 {
      assert a + b == b;
    } else {
      assert (a + b)[0] == a[0] && (a + b)[1..] == a[1..] + b;
      TargetsAppend(a[1..], b);
    }
  }

  /** The copy loop over `a + b` is the loop over `a` followed by the loop
      over `b`, which sees what the first part put on the worker. */
  lemma {:induction false} UploadsAppend(a: seq<string>, b: seq<string>, id: string, env: Env, written: set<string>)
    ensures Uploads(a + b, id, env, written) ==
      Uploads(a, id, env, written) + Uploads(b, id, env, written + Targets(Uploads(a, id, env, written)))
    decreases |a|
  {
    if |a| == 0 {
      assert a + b == b;
      assert written + Targets(Uploads(a, id, env, written)) == written;
    } else {
      var here := UploadStep(a[0], id, env, written);
      var w := written + Targets(here);
      var rest := Uploads(a[1..], id, env, w);
      assert (a + b)[0] == a[0] && (a + b)[1..] == a[1..] + b;
      var tail := Uploads(b, id, env, w + Targets(rest));
      UploadsAppend(a[1..], b, id, env, w);
      assert Uploads(a + b, id, env, written) == here + (rest + tail);
      var ua := Uploads(a, id, env, written);
      assert ua == here + rest;
      TargetsAppend(here, rest);
      assert w + Targets(rest) == written + Targets(ua);
      assert tail == Uploads(b, id, env, written + Targets(ua));
      AppendAssoc(here, rest, tail);
    }
  }

  /** A sequence split after its element `i`. */
  lemma SplitAt<T>(s: seq<T>, i: nat)
    requires i < |s|
    ensures s == s[..i + 1] + s[i + 1..] && s[..i + 1] == s[..i] + [s[i]]
  {
  }

  /** The head and tail of a concatenation whose first part is not empty. */
  lemma TailAppend<T>(a: seq<T>, b: seq<T>)
    requires |a| > 0
    ensures (a + b)[0] == a[0] && (a + b)[1..] == a[1..] + b
  {
  }

  /** A prefix of a concatenation that reaches past its first part. */
  lemma PrefixPastHead<T>(x: seq<T>, y: seq<T>, i: nat)
    requires |x| <= i <= |x| + |y|
    ensures (x + y)[..i] == x + y[..i - |x|]
  {
  }

  lemma AppendAssoc<T>(x: seq<T>, y: seq<T>, z: seq<T>)
    ensures x + (y + z) == (x + y) + z
  {
  }

  /** The loop over a single file is one step. */
  lemma UploadsOne(f: string, id: string, env: Env, written: set<string>)
    ensures Uploads([f], id, env, written) == UploadStep(f, id, env, written)
  {
    assert [f][1..] == [];
  }

  /** One iteration of the copy loop: after the files `a`, the next file
      `f` is logged when it is missing, put when neither the worker had its
      plain basename beforehand nor an earlier file was put there, and
      otherwise skipped. */
  lemma UploadsSnoc(a: seq<string>, f: string, id: string, env: Env, written: set<string>)
    ensures var before := Uploads(a, id, env, written);
      var plain := "samples/" + Basename(f);
      Uploads(a + [f], id, env, written) == before +
        if !env.isFile(f) then [LogError(UploadSourceMissing(id, f))]
        else if !env.remoteExists(plain) && plain !in written + Targets(before) then
          [Upload(f, "samples/" + UploadName(Basename(f)))]
        else []
  {
    var before := Uploads(a, id, env, written);
    UploadsAppend(a, [f], id, env, written);
    UploadsOne(f, id, env, written + Targets(before));
  }

  lemma PrefixedDiffer(p: string, a: string, b: string)
    requires a != b
    ensures p + a != p + b
  {
    assert (p + a)[|p|..] == a && (p + b)[|p|..] == b;
  }

  /** The loop over two files is two steps. */
  lemma UploadsTwo(f: string, g: string, id: string, env: Env, written: set<string>)
    ensures var first := UploadStep(f, id, env, written);
      Uploads([f, g], id, env, written) == first + UploadStep(g, id, env, written + Targets(first))
  {
    assert [f, g][1..] == [g];
    UploadsOne(g, id, env, written + Targets(UploadStep(f, id, env, written)));
  }

  lemma TargetsOne(e: Effect)
    ensures Targets([e]) == if e.Upload? then {e.target} else {}
  {
    assert [e][1..] == [];
  }

  /** A file listed twice whose basename has no lower-case read marker is
      put once: the second existence test sees the first copy. */
  lemma RepeatedPlainFileUploadedOnce(f: string, id: string, env: Env)
    requires env.isFile(f) && !env.remoteExists("samples/" + Basename(f))
    requires UploadName(Basename(f)) == Basename(f)
    ensures Uploads([f, f], id, env, {}) == [Upload(f, "samples/" + Basename(f))]
  {
    var t := "samples/" + Basename(f);
    var first := UploadStep(f, id, env, {});
    assert first == [Upload(f, t)];
    assert UploadStep(f, id, env, Targets(first)) == [] by {
      TargetsOne(Upload(f, t));
    }
    UploadsTwo(f, f, id, env, {});
  }

  /** A file listed twice whose basename has a lower-case read marker is put
      twice: the existence test looks for the name before normalisation,
      which the first copy does not create. */
  lemma RepeatedMarkedFileUploadedTwice(f: string, id: string, env: Env)
    requires env.isFile(f) && !env.remoteExists("samples/" + Basename(f))
    requires UploadName(Basename(f)) != Basename(f)
    ensures var t := Upload(f, "samples/" + UploadName(Basename(f)));
      Uploads([f, f], id, env, {}) == [t, t]
  {
    var t := "samples/" + UploadName(Basename(f));
    PrefixedDiffer("samples/", UploadName(Basename(f)), Basename(f));
    UploadStepPuts(f, id, env, {});
    UploadStepPuts(f, id, env, {t});
    TargetsOne(Upload(f, t));
    UploadsTwo(f, f, id, env, {});
    Twice(Upload(f, t));
  }

  /** An existing file whose plain basename is neither on the worker nor
      among the targets put so far is put under its normalised name. */
  lemma UploadStepPuts(f: string, id: string, env: Env, written: set<string>)
    requires env.isFile(f) && !env.remoteExists("samples/" + Basename(f))
    requires "samples/" + Basename(f) !in written
    ensures UploadStep(f, id, env, written) == [Upload(f, "samples/" + UploadName(Basename(f)))]
  {
  }

  lemma Twice<T>(x: T)
    ensures [x] + [x] == [x, x]
  {
  }

  /** The pipelines selected by the `expression` and `fusions` arguments,
      which must be exactly the string "True" (fabfile.py lines 214-218). */
  function Selected(opts: Options): (ps: seq<Pipeline>)
    ensures Expression in ps <==> opts.expression == "True"
    ensures Fusion in ps <==> opts.fusions == "True"
    ensures |ps| == (if opts.expression == "True" then 1 else 0) + (if opts.fusions == "True" then 1 else 0)
    ensures |ps| == 2 ==> ps[0] == Expression && ps[1] == Fusion
  {
    (if opts.expression == "True" then [Expression] else []) +
    (if opts.fusions == "True" then [Fusion] else [])
  }

  /** The remote `make` runs of a list of pipelines, in order. */
  function Runs(ps: seq<Pipeline>): (effects: seq<Effect>)
    ensures |effects| == |ps|
    ensures forall i :: 0 <= i < |ps| ==> effects[i] == RunMake(MakeTarget(ps[i]))
    ensures forall e :: e in effects ==> e.RunMake?
  {
    seq(|ps|, i requires 0 <= i < |ps| => RunMake(MakeTarget(ps[i])))
  }

  /** The image names `methods.json` records for a list of pipelines. */
  function Images(ps: seq<Pipeline>): (names: seq<string>)
    ensures |names| == |ps|
    ensures forall i :: 0 <= i < |ps| ==> names[i] == Image(ps[i])
  {
    seq(|ps|, i requires 0 <= i < |ps| => Image(ps[i]))
  }

  /** How the pass over one manifest row ended. */
  datatype SampleRun =
      /** The results directory exists: logged and skipped (lines 171-173). */
    | AlreadyDone(results: string)
      /** The machine was reset, then the sample was skipped because it does
          not list exactly two files (lines 194-196). */
    | WrongCount(missing: seq<Effect>, sampleId: string, files: seq<string>)
      /** The sample was uploaded, processed and recorded (lines 198-225). */
    | Processed(missing: seq<Effect>, uploads: seq<Effect>, results: string,
                pipelines: seq<Pipeline>, record: Methods)

  /** The ordered effects of a pass over one row: the worker is reset
      unless the directory check skipped the row, and a processed row ends
      by writing its record. */
  function Effects(run: SampleRun): (effects: seq<Effect>)
    ensures |effects| >= 1
    ensures ResetMachine in effects <==> !run.AlreadyDone?
    ensures run.Processed? ==> effects[|effects| - 1] == WriteMethods(run.results + "/methods.json", run.record)
  {
    match run
    case AlreadyDone(results) => [LogError(AlreadyExists(results))]
    case WrongCount(missing, id, files) => missing + [ResetMachine, LogError(WrongFileCount(id, files))]
    case Processed(missing, uploads, results, ps, record) =>
      missing + [ResetMachine] + uploads + [MakeResults(results)] + Runs(ps) +
      [FetchOutputs(results), WriteMethods(results + "/methods.json", record)]
  }

  /** One manifest row (fabfile.py lines 167-225), given the results
      directories that already exist locally. */
  function ProcessSample(row: ManifestRow, opts: Options, env: Env, existing: set<string>): (run: SampleRun)
    ensures run.AlreadyDone? <==> ResultsDir(opts.outputs, row.sampleId) in existing
    ensures run.Processed? <==>
      ResultsDir(opts.outputs, row.sampleId) !in existing && |SampleFiles(row)| == 2
    ensures run.Processed? || run.AlreadyDone? ==> run.results == ResultsDir(opts.outputs, row.sampleId)
    ensures !run.AlreadyDone? ==> run.missing == MissingInputLog(SampleFiles(row), row.sampleId, env.isFile)
    ensures WellFormed(run)
    ensures run.Processed? ==>
      && run.uploads == Uploads(SampleFiles(row), row.sampleId, env, {})
      && run.pipelines == Selected(opts)
      && run.record == Methods(env.user, env.revision, SampleFiles(row), Images(Selected(opts)))
  {
    var id := row.sampleId;
    var files := SampleFiles(row);
    var results := ResultsDir(opts.outputs, id);
    if results in existing then AlreadyDone(results)
    else
      var missing := MissingInputLog(files, id, env.isFile);
      if |files| != 2 then WrongCount(missing, id, files)
      else
        var ps := Selected(opts);
        Processed(missing, Uploads(files, id, env, {}), results, ps,
                  Methods(env.user, env.revision, files, Images(ps)))
  }

  /** The effects of the missing-input phase are all log entries, those of
      the upload phase log entries or uploads. */
  predicate WellFormed(run: SampleRun)
  {
    match run
    case AlreadyDone(_) => true
    case WrongCount(missing, _, _) => forall e :: e in missing ==> e.LogError? && e.entry.MissingInput?
    case Processed(missing, uploads, _, _, _) =>
      (forall e :: e in missing ==> e.LogError? && e.entry.MissingInput?) &&
      (forall e :: e in uploads ==> (e.LogError? && e.entry.UploadSourceMissing?) || e.Upload?)
  }

  /** Only a processed run creates a directory, and it creates its own
      results directory; a skipped run only logs and possibly resets. */
  lemma EffectsShape(run: SampleRun)
    requires WellFormed(run)
    ensures forall e :: e in Effects(run) && e.MakeResults? ==> run.Processed? && e.dir == run.results
    ensures run.Processed? ==> MakeResults(run.results) in Effects(run)
    ensures !run.Processed? ==> forall e :: e in Effects(run) ==> e.LogError? || e.ResetMachine?
    ensures forall e :: e in Effects(run) && e.LogError? && e.entry.MissingInput? ==>
      !run.AlreadyDone? && e in run.missing
  {
    match run
    case AlreadyDone(_) =>
    case WrongCount(missing, id, files) =>
      var tail := [ResetMachine, LogError(WrongFileCount(id, files))];
      assert forall e :: e in Effects(run) ==> e in missing || e in tail;
    case Processed(missing, uploads, results, ps, record) =>
      ProcessedMembers(run);
  }

  /** Every effect of a processed run comes from one of its phases. */
  lemma ProcessedMembers(run: SampleRun)
    requires run.Processed?
    ensures forall e :: e in Effects(run) ==>
      || e in run.missing || e == ResetMachine || e in run.uploads || e == MakeResults(run.results)
      || e in Runs(run.pipelines) || e == FetchOutputs(run.results)
      || e == WriteMethods(run.results + "/methods.json", run.record)
  {
    var a := run.missing + [ResetMachine] + run.uploads;
    var b := [MakeResults(run.results)];
    var c := Runs(run.pipelines);
    var d := [FetchOutputs(run.results), WriteMethods(run.results + "/methods.json", run.record)];
    assert Effects(run) == a + b + c + d;
    assert forall e :: e in Effects(run) ==> e in a || e in b || e in c || e in d;
    assert forall e :: e in a ==> e in run.missing || e == ResetMachine || e in run.uploads;
  }

  /** A sample is processed exactly when its results directory does not
      exist yet and its `File Path` names exactly two files; in every other
      case nothing is created, uploaded or run for it. */
  lemma AdmissionRule(row: ManifestRow, opts: Options, env: Env, existing: set<string>)
    ensures var effects := Effects(ProcessSample(row, opts, env, existing));
      MakeResults(ResultsDir(opts.outputs, row.sampleId)) in effects <==>
        ResultsDir(opts.outputs, row.sampleId) !in existing && |SampleFiles(row)| == 2
    ensures var effects := Effects(ProcessSample(row, opts, env, existing));
      !ProcessSample(row, opts, env, existing).Processed? ==>
        forall e :: e in effects ==> !e.MakeResults? && !e.Upload? && !e.RunMake? && !e.WriteMethods?
  {
    var run := ProcessSample(row, opts, env, existing);
    RunAdmission(run, ResultsDir(opts.outputs, row.sampleId));
  }

  /** A well-formed run creates the given results directory exactly when it
      is processed, and a run that is not processed is inert. */
  lemma RunAdmission(run: SampleRun, dir: string)
    requires WellFormed(run) && (run.Processed? ==> run.results == dir)
    ensures MakeResults(dir) in Effects(run) <==> run.Processed?
    ensures !run.Processed? ==>
      forall e :: e in Effects(run) ==> !e.MakeResults? && !e.Upload? && !e.RunMake? && !e.WriteMethods?
  {
    EffectsShape(run);
  }

  /** A sample whose results directory exists is skipped with a single log
      entry, before the worker is reset. */
  lemma SkipExisting(row: ManifestRow, opts: Options, env: Env, existing: set<string>)
    requires ResultsDir(opts.outputs, row.sampleId) in existing
    ensures Effects(ProcessSample(row, opts, env, existing)) ==
      [LogError(AlreadyExists(ResultsDir(opts.outputs, row.sampleId)))]
  {
  }

  /** Missing input files are only logged by the first existence check:
      whether a sample is processed does not depend on which of its files
      exist, and every missing file of a sample that passed the directory
      check is logged before the machine is reset. */
  lemma MissingFilesOnlyLog(row: ManifestRow, opts: Options, env: Env, env': Env, existing: set<string>)
    ensures ProcessSample(row, opts, env, existing).Processed? ==
      ProcessSample(row, opts, env', existing).Processed?
    ensures ResultsDir(opts.outputs, row.sampleId) !in existing ==>
      forall f :: f in SampleFiles(row) && !env.isFile(f) ==>
        LogError(MissingInput(f, row.sampleId)) in Effects(ProcessSample(row, opts, env, existing))
  {
  }

  /** In a processed sample the selected pipelines run between the creation
      of the results directory and the download of the outputs, and
      `methods.json`, written last, records the parsed inputs. */
  lemma ProcessedOrder(row: ManifestRow, opts: Options, env: Env, existing: set<string>)
    requires ProcessSample(row, opts, env, existing).Processed?
    ensures var run := ProcessSample(row, opts, env, existing);
      var effects := Effects(run);
      var results := ResultsDir(opts.outputs, row.sampleId);
      var k := |run.missing| + 1 + |run.uploads|;
      && effects[k] == MakeResults(results)
      && effects[k + 1..k + 1 + |run.pipelines|] == Runs(Selected(opts))
      && effects[|effects| - 1] == WriteMethods(results + "/methods.json", run.record)
      && run.record.inputs == SampleFiles(row)
  {
    ProcessedLayout(ProcessSample(row, opts, env, existing));
  }

  /** The record of a processed sample lists exactly the images of the
      selected pipelines: the expression image when `expression` is "True",
      then the fusion image when `fusions` is "True", and nothing else. */
  lemma RecordedPipelines(row: ManifestRow, opts: Options, env: Env, existing: set<string>)
    requires ProcessSample(row, opts, env, existing).Processed?
    ensures var pipelines := ProcessSample(row, opts, env, existing).record.pipelines;
      && (Image(Expression) in pipelines <==> opts.expression == "True")
      && (Image(Fusion) in pipelines <==> opts.fusions == "True")
      && (forall x :: x in pipelines ==> x == Image(Expression) || x == Image(Fusion))
      && |pipelines| == (if opts.expression == "True" then 1 else 0) + (if opts.fusions == "True" then 1 else 0)
      && (opts.expression == "True" ==> pipelines[0] == Image(Expression))
  {
    SelectedImages(opts);
  }

  /** The order of a processed row (fabfile.py lines 171-225): the reset
      comes before every upload; every upload comes before the results
      directory is created, so a failed upload leaves no empty directory
      (lines 207-209); every pipeline run comes after that and before the
      outputs are fetched. */
  lemma EffectsOrder(run: SampleRun)
    requires WellFormed(run) && run.Processed?
    ensures var effects := Effects(run);
      forall i, j :: 0 <= i < |effects| && 0 <= j < |effects| ==>
        && (effects[i] == ResetMachine && effects[j].Upload? ==> i < j)
        && (effects[i].Upload? && effects[j].MakeResults? ==> i < j)
        && (effects[i].MakeResults? && effects[j].RunMake? ==> i < j)
        && (effects[i].RunMake? && effects[j].FetchOutputs? ==> i < j)
  {
    var effects := Effects(run);
    var r := |run.missing|;
    var k := r + 1 + |run.uploads|;
    EffectPositions(run);
    forall i, j | 0 <= i < |effects| && 0 <= j < |effects|
      ensures && (effects[i] == ResetMachine && effects[j].Upload? ==> i < j)
              && (effects[i].Upload? && effects[j].MakeResults? ==> i < j)
              && (effects[i].MakeResults? && effects[j].RunMake? ==> i < j)
              && (effects[i].RunMake? && effects[j].FetchOutputs? ==> i < j)
    {
    }
  }

  /** Which positions of a processed row hold which kind of effect. */
  lemma EffectPositions(run: SampleRun)
    requires WellFormed(run) && run.Processed?
    ensures var effects := Effects(run);
      var r := |run.missing|;
      var k := r + 1 + |run.uploads|;
      forall i :: 0 <= i < |effects| ==>
        && (effects[i] == ResetMachine ==> i == r)
        && (effects[i].Upload? ==> r < i < k)
        && (effects[i].MakeResults? ==> i == k)
        && (effects[i].RunMake? ==> k < i < |effects| - 2)
        && (effects[i].FetchOutputs? ==> i == |effects| - 2)
  {
    forall i | 0 <= i < |Effects(run)| {
      EffectAt(run, i);
    }
  }

  lemma EffectAt(run: SampleRun, i: int)
    requires WellFormed(run) && run.Processed? && 0 <= i < |Effects(run)|
    ensures var effects := Effects(run);
      var r := |run.missing|;
      var k := r + 1 + |run.uploads|;
      && (effects[i] == ResetMachine ==> i == r)
      && (effects[i].Upload? ==> r < i < k)
      && (effects[i].MakeResults? ==> i == k)
      && (effects[i].RunMake? ==> k < i < |effects| - 2)
      && (effects[i].FetchOutputs? ==> i == |effects| - 2)
  {
    var effects := Effects(run);
    var r := |run.missing|;
    var k := r + 1 + |run.uploads|;
    var runs := Runs(run.pipelines);
    var tail := [FetchOutputs(run.results), WriteMethods(run.results + "/methods.json", run.record)];
    assert effects == run.missing + [ResetMachine] + run.uploads + [MakeResults(run.results)] + runs + tail;
    if i < r {
      assert effects[i] == run.missing[i];
      assert run.missing[i] in run.missing;
    } else if r < i < k {
      assert effects[i] == run.uploads[i - r - 1];
      assert run.uploads[i - r - 1] in run.uploads;
    } else if k < i < |effects| - 2 {
      assert effects[i] == runs[i - k - 1];
    }
  }

  /** Where the directory creation, the pipeline runs and the record sit in
      the effects of a processed run. */
  lemma ProcessedLayout(run: SampleRun)
    requires run.Processed?
    ensures var effects := Effects(run);
      var k := |run.missing| + 1 + |run.uploads|;
      && |effects| == k + 1 + |run.pipelines| + 2
      && effects[k] == MakeResults(run.results)
      && effects[k + 1..k + 1 + |run.pipelines|] == Runs(run.pipelines)
      && effects[|effects| - 1] == WriteMethods(run.results + "/methods.json", run.record)
  {
    var head := run.missing + [ResetMachine] + run.uploads;
    var effects := Effects(run);
    var tail := [FetchOutputs(run.results), WriteMethods(run.results + "/methods.json", run.record)];
    assert effects == head + [MakeResults(run.results)] + Runs(run.pipelines) + tail;
    var k := |head|;
    assert (head + [MakeResults(run.results)] + Runs(run.pipelines))[k + 1..] == Runs(run.pipelines);
  }

  /** The images recorded for the selected pipelines: the expression image
      exactly when `expression` is "True", the fusion image exactly when
      `fusions` is "True", expression first, nothing else. */
  lemma SelectedImages(opts: Options)
    ensures var pipelines := Images(Selected(opts));
      && (Image(Expression) in pipelines <==> opts.expression == "True")
      && (Image(Fusion) in pipelines <==> opts.fusions == "True")
      && (forall x :: x in pipelines ==> x == Image(Expression) || x == Image(Fusion))
      && |pipelines| <= 2
      && (opts.expression == "True" ==> pipelines[0] == Image(Expression))
  {
    var ps := Selected(opts);
    var pipelines := Images(ps);
    assert Image(Expression) != Image(Fusion);
    forall x | x in pipelines ensures x == Image(Expression) || x == Image(Fusion) {
      var i :| 0 <= i < |pipelines| && pipelines[i] == x;
    }
    if opts.expression == "True" {
      assert ps[0] == Expression;
    }
    if Image(Expression) in pipelines {
      var i :| 0 <= i < |pipelines| && pipelines[i] == Image(Expression);
      assert ps[i] == Expression;
    }
    if Image(Fusion) in pipelines {
      var i :| 0 <= i < |pipelines| && pipelines[i] == Image(Fusion);
      assert ps[i] == Fusion;
    }
    if opts.fusions == "True" {
      assert ps[|ps| - 1] == Fusion;
      assert pipelines[|ps| - 1] == Image(Fusion);
    }
  }

  // ---------------------------------------------------------------------
  // A host's pass over its shard.

  /** The results directories a list of effects creates, in order. */
  function Made(effects: seq<Effect>): seq<string>
  {
    if |effects| == 0 then []
    else if effects[0].MakeResults? then [effects[0].dir] + Made(effects[1..])
    else Made(effects[1..])
  }

  /** `Made` lists exactly the directories the effects create. */
  lemma {:induction false} MadeMembers(effects: seq<Effect>, d: string)
    ensures d in Made(effects) <==> MakeResults(d) in effects
    decreases |effects|
  {
    if |effects| > 0 {
      MadeMembers(effects[1..], d);
      assert effects == [effects[0]] + effects[1..];
    }
  }

  lemma {:induction false} MadeAppend(a: seq<Effect>, b: seq<Effect>)
    ensures Made(a + b) == Made(a) + Made(b)
    decreases |a|
  {
    if |a| > 0 {
      assert (a + b)[1..] == a[1..] + b;
      MadeAppend(a[1..], b);
    } else {
      assert a + b == b;
    }
  }

  /** A single row creates its own results directory once when it is
      processed, and nothing otherwise. */
  lemma MadeBySample(row: ManifestRow, opts: Options, env: Env, existing: set<string>)
    ensures Made(Effects(ProcessSample(row, opts, env, existing))) ==
      if ProcessSample(row, opts, env, existing).Processed? then [ResultsDir(opts.outputs, row.sampleId)] else []
  {
    MadeByRun(ProcessSample(row, opts, env, existing));
  }

  lemma MadeByRun(run: SampleRun)
    requires WellFormed(run)
    ensures Made(Effects(run)) == if run.Processed? then [run.results] else []
  {
    match run
    case Processed(missing, uploads, results, ps, record) =>
      MadeByProcessed(missing, uploads, results, ps, record);
    case _ =>
      EffectsShape(run);
      NoneMade(Effects(run));
  }

  lemma MadeByProcessed(missing: seq<Effect>, uploads: seq<Effect>, results: string, ps: seq<Pipeline>, record: Methods)
    requires forall e :: e in missing ==> e.LogError?
    requires forall e :: e in uploads ==> e.LogError? || e.Upload?
    ensures Made(Effects(Processed(missing, uploads, results, ps, record))) == [results]
  {
    NoneMade(missing);
    NoneMade(uploads);
    NoneMade(Runs(ps));
    var a1 := missing + [ResetMachine];
    MadeAppend(missing, [ResetMachine]);
    NoneMade([ResetMachine]);
    var a2 := a1 + uploads;
    MadeAppend(a1, uploads);
    assert Made(a2) == [];
    var a3 := a2 + [MakeResults(results)];
    MadeAppend(a2, [MakeResults(results)]);
    assert Made(a3) == [results];
    var a4 := a3 + Runs(ps);
    MadeAppend(a3, Runs(ps));
    var tail := [FetchOutputs(results), WriteMethods(results + "/methods.json", record)];
    MadeAppend(a4, tail);
    NoneMade(tail);
    assert Made(a4 + tail) == [results];
  }

  lemma {:induction false} NoneMade(effects: seq<Effect>)
    requires forall e :: e in effects ==> !e.MakeResults?
    ensures Made(effects) == []
    decreases |effects|
  {
    if |effects| > 0 {
      assert effects[0] in effects;
      assert forall e :: e in effects[1..] ==> e in effects;
      NoneMade(effects[1..]);
    }
  }

  /** What a host's pass over its shard produces. */
  datatype ShardRun = ShardRun(effects: seq<Effect>, existing: set<string>)

  /** The loop of `process` over a shard (fabfile.py lines 164-225). A
      processed sample's results directory exists for the rest of the pass,
      so a later row with the same sample id is skipped. */
  function ProcessShard(rows: seq<ManifestRow>, opts: Options, env: Env, existing: set<string>): (run: ShardRun)
    ensures forall d :: d in run.existing <==> d in existing || d in Made(run.effects)
    decreases |rows|
  {
    if |rows| == 0 then ShardRun([], existing)
    else
      var sample := ProcessSample(rows[0], opts, env, existing);
      var first := Effects(sample);
      MadeBySample(rows[0], opts, env, existing);
      var now := if sample.Processed? then existing + {sample.results} else existing;
      var rest := ProcessShard(rows[1..], opts, env, now);
      MadeAppend(first, rest.effects);
      assert forall d :: d in Made(first + rest.effects) <==> d in Made(first) || d in Made(rest.effects);
      ShardRun(first + rest.effects, rest.existing)
  }

  /** No element occurs twice. */
  predicate Distinct<T(==)>(xs: seq<T>)
  {
    forall i, j :: 0 <= i < j < |xs| ==> xs[i] != xs[j]
  }

  lemma DistinctPrepend<T>(x: T, xs: seq<T>)
    requires x !in xs && Distinct(xs)
    ensures Distinct([x] + xs)
  {
    var ys := [x] + xs;
    forall i, j | 0 <= i < j < |ys| ensures ys[i] != ys[j] {
      assert ys[j] == xs[j - 1];
      if i > 0 {
        assert ys[i] == xs[i - 1];
      }
    }
  }

  /** The results directories created in one pass are pairwise distinct and
      none of them existed before: no directory is created twice. */
  lemma {:induction false} NoResultsDirCreatedTwice(rows: seq<ManifestRow>, opts: Options, env: Env, existing: set<string>)
    ensures var made := Made(ProcessShard(rows, opts, env, existing).effects);
      Distinct(made) && forall d :: d in made ==> d !in existing
    decreases |rows|
  {
    if |rows| > 0 {
      var created := ProcessSample(rows[0], opts, env, existing).Processed?;
      var dir := ResultsDir(opts.outputs, rows[0].sampleId);
      var now := if created then existing + {dir} else existing;
      NoResultsDirCreatedTwice(rows[1..], opts, env, now);
      var rest := Made(ProcessShard(rows[1..], opts, env, now).effects);
      MadeByShard(rows, opts, env, existing);
      FreshPrepend(created, dir, rest, existing, now);
    }
  }

  /** Prepending the directory a row creates, if any, to those created
      after it keeps them distinct and new. */
  lemma FreshPrepend(created: bool, dir: string, rest: seq<string>, existing: set<string>, now: set<string>)
    requires created ==> dir !in existing
    requires now == if created then existing + {dir} else existing
    requires Distinct(rest) && forall d :: d in rest ==> d !in now
    ensures var made := (if created then [dir] else []) + rest;
      Distinct(made) && forall d :: d in made ==> d !in existing
  {
    if created {
      DistinctPrepend(dir, rest);
    } else {
      assert [] + rest == rest;
    }
  }

  /** The directories a pass creates: those of its first row, then those
      of the rest of the pass. */
  lemma MadeByShard(rows: seq<ManifestRow>, opts: Options, env: Env, existing: set<string>)
    requires |rows| > 0
    ensures var created := ProcessSample(rows[0], opts, env, existing).Processed?;
      var dir := ResultsDir(opts.outputs, rows[0].sampleId);
      var now := if created then existing + {dir} else existing;
      Made(ProcessShard(rows, opts, env, existing).effects) ==
        (if created then [dir] else []) + Made(ProcessShard(rows[1..], opts, env, now).effects)
  {
    var sample := ProcessSample(rows[0], opts, env, existing);
    var now := if sample.Processed? then existing + {sample.results} else existing;
    MadeBySample(rows[0], opts, env, existing);
    MadeAppend(Effects(sample), ProcessShard(rows[1..], opts, env, now).effects);
  }

  /** The first iteration of the loop, with the rest of the pass starting
      from the directories that exist after it. */
  lemma ProcessShardStep(rows: seq<ManifestRow>, opts: Options, env: Env, existing: set<string>)
    requires |rows| > 0
    ensures var sample := ProcessSample(rows[0], opts, env, existing);
      var now := if sample.Processed? then existing + {ResultsDir(opts.outputs, rows[0].sampleId)} else existing;
      var rest := ProcessShard(rows[1..], opts, env, now);
      ProcessShard(rows, opts, env, existing) == ShardRun(Effects(sample) + rest.effects, rest.existing)
  {
  }

  /** The loop over `a + b` is the loop over `a` followed by the loop over
      `b`, which starts from the directories that exist after `a`. */
  lemma {:induction false} ProcessShardAppend(a: seq<ManifestRow>, b: seq<ManifestRow>, opts: Options, env: Env,
                                              existing: set<string>)
    ensures var first := ProcessShard(a, opts, env, existing);
      var second := ProcessShard(b, opts, env, first.existing);
      ProcessShard(a + b, opts, env, existing) == ShardRun(first.effects + second.effects, second.existing)
    decreases |a|
  {
    if |a| == 0 {
      assert a + b == b;
      assert [] + ProcessShard(b, opts, env, existing).effects == ProcessShard(b, opts, env, existing).effects;
    } else {
      var sample := ProcessSample(a[0], opts, env, existing);
      var now := if sample.Processed? then existing + {ResultsDir(opts.outputs, a[0].sampleId)} else existing;
      ProcessShardAppend(a[1..], b, opts, env, now);
      ProcessShardAppendStep(a, b, opts, env, existing);
    }
  }

  /** The inductive step of `ProcessShardAppend`: the claim for `a[1..]`,
      started after the first row of `a`, gives the claim for `a`. */
  lemma ProcessShardAppendStep(a: seq<ManifestRow>, b: seq<ManifestRow>, opts: Options, env: Env, existing: set<string>)
    requires |a| > 0
    requires var sample := ProcessSample(a[0], opts, env, existing);
      var now := if sample.Processed? then existing + {ResultsDir(opts.outputs, a[0].sampleId)} else existing;
      var middle := ProcessShard(a[1..], opts, env, now);
      var second := ProcessShard(b, opts, env, middle.existing);
      ProcessShard(a[1..] + b, opts, env, now) == ShardRun(middle.effects + second.effects, second.existing)
    ensures var first := ProcessShard(a, opts, env, existing);
      var second := ProcessShard(b, opts, env, first.existing);
      ProcessShard(a + b, opts, env, existing) == ShardRun(first.effects + second.effects, second.existing)
  {
    var sample := ProcessSample(a[0], opts, env, existing);
    var now := if sample.Processed? then existing + {ResultsDir(opts.outputs, a[0].sampleId)} else existing;
    var middle := ProcessShard(a[1..], opts, env, now);
    var second := ProcessShard(b, opts, env, middle.existing);
    TailAppend(a, b);
    ProcessShardStep(a + b, opts, env, existing);
    ProcessShardStep(a, opts, env, existing);
    AppendAssoc(Effects(sample), middle.effects, second.effects);
  }

  /** One iteration of the loop: the next row goes through `ProcessSample`
      with the directories that exist at that point, its effects follow
      those of the earlier rows, and its results directory exists from then
      on when it was processed. */
  lemma ProcessShardSnoc(rows: seq<ManifestRow>, row: ManifestRow, opts: Options, env: Env, existing: set<string>)
    ensures var before := ProcessShard(rows, opts, env, existing);
      var sample := ProcessSample(row, opts, env, before.existing);
      var dir := ResultsDir(opts.outputs, row.sampleId);
      ProcessShard(rows + [row], opts, env, existing) ==
        ShardRun(before.effects + Effects(sample),
                 if sample.Processed? then before.existing + {dir} else before.existing)
  {
    ProcessShardAppend(rows, [row], opts, env, existing);
    var before := ProcessShard(rows, opts, env, existing);
    var sample := ProcessSample(row, opts, env, before.existing);
    var now := if sample.Processed? then before.existing + {sample.results} else before.existing;
    assert [row][1..] == [];
    assert Effects(sample) + [] == Effects(sample);
    assert ProcessShard([row], opts, env, before.existing) == ShardRun(Effects(sample), now);
  }

  /** A pass creates no directory but the results directory of one of its
      rows. */
  lemma {:induction false} ShardMadeFromRows(rows: seq<ManifestRow>, opts: Options, env: Env, existing: set<string>)
    ensures forall d :: d in Made(ProcessShard(rows, opts, env, existing).effects) ==>
      exists i :: 0 <= i < |rows| && d == ResultsDir(opts.outputs, rows[i].sampleId)
    decreases |rows|
  {
    if |rows| > 0 {
      var created := ProcessSample(rows[0], opts, env, existing).Processed?;
      var dir := ResultsDir(opts.outputs, rows[0].sampleId);
      var now := if created then existing + {dir} else existing;
      MadeByShard(rows, opts, env, existing);
      ShardMadeFromRows(rows[1..], opts, env, now);
      var rest := Made(ProcessShard(rows[1..], opts, env, now).effects);
      forall d | d in Made(ProcessShard(rows, opts, env, existing).effects)
        ensures exists i :: 0 <= i < |rows| && d == ResultsDir(opts.outputs, rows[i].sampleId)
      {
        if d == dir {
          assert d == ResultsDir(opts.outputs, rows[0].sampleId);
        } else {
          assert d in rest;
          var j :| 0 <= j < |rows[1..]| && d == ResultsDir(opts.outputs, rows[1..][j].sampleId);
          assert d == ResultsDir(opts.outputs, rows[j + 1].sampleId);
        }
      }
    }
  }

  /** Every row of a pass goes through the directory check: a row whose
      results directory did not exist before the pass and that names
      exactly two files has its directory created, by itself or by an
      earlier row with the same sample id. */
  lemma ShardProcessesNewRows(rows: seq<ManifestRow>, opts: Options, env: Env, existing: set<string>, i: nat)
    requires i < |rows|
    requires ResultsDir(opts.outputs, rows[i].sampleId) !in existing && |SampleFiles(rows[i])| == 2
    ensures ResultsDir(opts.outputs, rows[i].sampleId) in Made(ProcessShard(rows, opts, env, existing).effects)
  {
    var dir := ResultsDir(opts.outputs, rows[i].sampleId);
    var upto := ProcessShard(rows[..i + 1], opts, env, existing);
    assert dir in upto.existing by {
      SplitAt(rows, i);
      ProcessShardSnoc(rows[..i], rows[i], opts, env, existing);
    }
    assert ProcessShard(rows, opts, env, existing).existing ==
      ProcessShard(rows[i + 1..], opts, env, upto.existing).existing by {
      SplitAt(rows, i);
      ProcessShardAppend(rows[..i + 1], rows[i + 1..], opts, env, existing);
    }
  }

  /** The whole `process` command on one host: pick the shard, then process
      it. A host that is not in the host list, or a negative limit, stops
      the command before any sample is touched. */
  function ProcessHost<H(==)>(manifest: seq<ManifestRow>, hosts: seq<H>, host: H, limit: Option<int>,
                              opts: Options, env: Env, existing: set<string>)
    : (r: Result<ShardRun, Sharding.ShardError>)
    ensures r.Failure? <==> Sharding.HostShard(manifest, hosts, host, limit).Failure?
    ensures r.Success? ==> forall d :: d in r.value.existing <==> d in existing || d in Made(r.value.effects)
  {
    match Sharding.HostShard(manifest, hosts, host, limit)
    case Failure(e) => Failure(e)
    case Success(shard) => Success(ProcessShard(shard, opts, env, existing))
  }

  /** On one host, the results directories created are exactly those of
      the manifest rows the host owns (below the stop position and equal to
      its index modulo the number of hosts): every directory it creates
      belongs to such a row, and every such row whose directory did not
      exist and that names exactly two files has its directory created. */
  lemma HostProcessesOwnRows<H>(manifest: seq<ManifestRow>, hosts: seq<H>, host: H, limit: Option<int>,
                                    opts: Options, env: Env, existing: set<string>)
    ensures var r := ProcessHost(manifest, hosts, host, limit, opts, env, existing);
      var k := Sharding.IndexOf(hosts, host);
      var stop := Sharding.Stop(|manifest|, Sharding.NatLimit(limit));
      r.Success? ==>
        && (forall d :: d in Made(r.value.effects) ==>
              exists p :: 0 <= p < stop && p % |hosts| == k.value && d == ResultsDir(opts.outputs, manifest[p].sampleId))
        && (forall p ::
              (0 <= p < stop && p % |hosts| == k.value &&
               ResultsDir(opts.outputs, manifest[p].sampleId) !in existing && |SampleFiles(manifest[p])| == 2) ==>
              ResultsDir(opts.outputs, manifest[p].sampleId) in Made(r.value.effects))
  {
    var r := ProcessHost(manifest, hosts, host, limit, opts, env, existing);
    if r.Success? {
      var shard := Sharding.HostShard(manifest, hosts, host, limit).value;
      var k := Sharding.IndexOf(hosts, host).value;
      var n := |hosts|;
      var stop := Sharding.Stop(|manifest|, Sharding.NatLimit(limit));
      var made := Made(r.value.effects);
      assert r.value == ProcessShard(shard, opts, env, existing);
      ShardMadeFromRows(shard, opts, env, existing);
      forall d | d in made
        ensures exists p :: 0 <= p < stop && p % n == k && d == ResultsDir(opts.outputs, manifest[p].sampleId)
      {
        var i :| 0 <= i < |shard| && d == ResultsDir(opts.outputs, shard[i].sampleId);
        var p := Sharding.ShardRowOwned(manifest, hosts, host, limit, i);
        assert d == ResultsDir(opts.outputs, manifest[p].sampleId);
      }
      forall p | 0 <= p < stop && p % n == k &&
          ResultsDir(opts.outputs, manifest[p].sampleId) !in existing && |SampleFiles(manifest[p])| == 2
        ensures ResultsDir(opts.outputs, manifest[p].sampleId) in made
      {
        var i := Sharding.OwnedRowInShard(manifest, hosts, host, limit, p);
        ShardProcessesNewRows(shard, opts, env, existing, i);
      }
    }
  }

  // ---------------------------------------------------------------------
  // The `check` command.

  /** One line of the `check` report. */
  datatype CheckLine = Present(file: string) | Absent(file: string, sampleId: string)

  /** The line `check` prints for one file of a sample. */
  function Line(f: string, id: string, isFile: string -> bool): CheckLine
  {
    if isFile(f) then Present(f) else Absent(f, id)
  }

  /** The report `check` prints for one row (fabfile.py lines 232-241). */
  function CheckRow(row: ManifestRow, isFile: string -> bool): (lines: seq<CheckLine>)
    ensures |lines| == |SampleFiles(row)|
    ensures forall i :: 0 <= i < |lines| ==>
      lines[i].file == SampleFiles(row)[i] && (lines[i].Absent? <==> !isFile(SampleFiles(row)[i]))
  {
    var files := SampleFiles(row);
    seq(|files|, i requires 0 <= i < |files| => Line(files[i], row.sampleId, isFile))
  }

  /** The number of files a manifest lists. */
  function ListedFiles(manifest: seq<ManifestRow>): nat
  {
    if |manifest| == 0 then 0 else |SampleFiles(manifest[0])| + ListedFiles(manifest[1..])
  }

  /** `check` over a whole manifest (fabfile.py lines 231-241): one line per
      listed file; every listed file gets its line, and every line is the
      line of a listed file of some row. */
  function CheckManifest(manifest: seq<ManifestRow>, isFile: string -> bool): (lines: seq<CheckLine>)
    ensures |lines| == ListedFiles(manifest)
    ensures forall row, f :: row in manifest && f in SampleFiles(row) ==> Line(f, row.sampleId, isFile) in lines
    ensures forall l :: l in lines ==>
      exists row :: row in manifest && l.file in SampleFiles(row) && l == Line(l.file, row.sampleId, isFile)
  {
    if |manifest| == 0 then []
    else
      var here := CheckRow(manifest[0], isFile);
      var rest := CheckManifest(manifest[1..], isFile);
      CheckRowLines(manifest[0], isFile);
      assert forall row :: row in manifest[1..] ==> row in manifest;
      assert forall row :: row in manifest ==> row == manifest[0] || row in manifest[1..];
      here + rest
  }

  /** `check` over `a + b` prints the report for `a`, then the report for
      `b`: manifest order, one block per row, repeats included. */
  lemma {:induction false} CheckManifestAppend(a: seq<ManifestRow>, b: seq<ManifestRow>, isFile: string -> bool)
    ensures CheckManifest(a + b, isFile) == CheckManifest(a, isFile) + CheckManifest(b, isFile)
    decreases |a|
  {
    if |a| == 0 {
      assert a + b == b;
    } else {
      assert (a + b)[0] == a[0] && (a + b)[1..] == a[1..] + b;
      CheckManifestAppend(a[1..], b, isFile);
      AppendAssoc(CheckRow(a[0], isFile), CheckManifest(a[1..], isFile), CheckManifest(b, isFile));
    }
  }

  /** One iteration of `check`'s outer loop appends the row's report, whose
      lines follow the row's files in order. */
  lemma CheckManifestSnoc(manifest: seq<ManifestRow>, row: ManifestRow, isFile: string -> bool)
    ensures CheckManifest(manifest + [row], isFile) == CheckManifest(manifest, isFile) + CheckRow(row, isFile)
  {
    CheckManifestAppend(manifest, [row], isFile);
    assert [row][1..] == [];
    assert CheckRow(row, isFile) + [] == CheckRow(row, isFile);
  }

  /** The lines of one row are exactly the lines of its files. */
  lemma CheckRowLines(row: ManifestRow, isFile: string -> bool)
    ensures forall f :: f in SampleFiles(row) ==> Line(f, row.sampleId, isFile) in CheckRow(row, isFile)
    ensures forall l :: l in CheckRow(row, isFile) ==>
      l.file in SampleFiles(row) && l == Line(l.file, row.sampleId, isFile)
  {
    var files := SampleFiles(row);
    var lines := CheckRow(row, isFile);
    forall f | f in files ensures Line(f, row.sampleId, isFile) in lines {
      var j :| 0 <= j < |files| && files[j] == f;
      assert lines[j] == Line(f, row.sampleId, isFile);
    }
  }

  /** `check` flags a file as missing exactly when `process` logs it as
      missing for a sample that passed the directory check. */
  lemma CheckAgreesWithProcess(row: ManifestRow, opts: Options, env: Env, existing: set<string>, f: string)
    requires ResultsDir(opts.outputs, row.sampleId) !in existing
    ensures Absent(f, row.sampleId) in CheckRow(row, env.isFile) <==>
      LogError(MissingInput(f, row.sampleId)) in Effects(ProcessSample(row, opts, env, existing))
  {
    var run := ProcessSample(row, opts, env, existing);
    MissingInEffects(run, LogError(MissingInput(f, row.sampleId)));
    CheckRowAbsent(row, env.isFile, f);
  }

  /** A missing-input entry is among the effects of a run that passed the
      directory check exactly when its missing-input phase logged it. */
  lemma MissingInEffects(run: SampleRun, e: Effect)
    requires WellFormed(run) && !run.AlreadyDone?
    requires e.LogError? && e.entry.MissingInput?
    ensures e in Effects(run) <==> e in run.missing
  {
    EffectsShape(run);
    assert Effects(run)[..|run.missing|] == run.missing;
  }

  lemma CheckRowAbsent(row: ManifestRow, isFile: string -> bool, f: string)
    ensures Absent(f, row.sampleId) in CheckRow(row, isFile) <==> f in SampleFiles(row) && !isFile(f)
  {
    var files := SampleFiles(row);
    var lines := CheckRow(row, isFile);
    if Absent(f, row.sampleId) in lines {
      var i :| 0 <= i < |lines| && lines[i] == Absent(f, row.sampleId);
      assert files[i] == f;
    }
    if f in files && !isFile(f) {
      var j :| 0 <= j < |files| && files[j] == f;
      assert lines[j] == Absent(f, row.sampleId);
    }
  }
}
