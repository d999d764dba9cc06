/** packages/market_data/datasets/conversion_manifest.py: artifacts of converted files and the research manifest. */
module Manifest {
  import opened Wrappers
  import opened Intervals
  import opened TextOrder
  import Dataset
  import Converter
  import ConversionStream

  type Sha = string

  /** The contract that was violated, by field. */
  datatype ManifestError = Invalid(field: string)

  // ---------------------------------------------------------------- artifacts

  datatype Artifact = Artifact(
    rawName: string, researchName: string, failureName: string, symbol: MarketSymbol, interval: string,
    rawSha: Sha, rawBytes: nat, linesSeen: nat, written: nat, quarantined: nat,
    coverageStart: Option<int>, coverageEnd: Option<int>, researchSha: Sha, failureSha: Sha,
    researchBytes: nat, failureBytes: nat, success: bool)

  predicate DigestPresent(bytes: nat, sha: Sha, emptySha: Sha) {
    bytes == 0 <==> sha == emptySha
  }

  /** The checks of `ResearchFileArtifact.__post_init__`, in order. */
  function CheckArtifact(a: Artifact, emptySha: Sha): Result<Artifact, ManifestError> {
    if !a.symbol.Canonical() then Err(Invalid("symbol"))
    else if !Supported(a.interval) then Err(Invalid("interval"))
    else if a.rawName != RawOutputName(a.symbol.Text(), a.interval) then Err(Invalid("raw_name"))
    else if a.researchName != a.rawName then Err(Invalid("research_name"))
    else if a.failureName != FailureOutputName(a.symbol.Text(), a.interval) then Err(Invalid("failure_name"))
    else if (a.coverageStart.Some? && a.coverageStart.value < 0) || (a.coverageEnd.Some? && a.coverageEnd.value < 0) then
      Err(Invalid("coverage"))
    else if (a.linesSeen == 0) != (a.rawBytes == 0) then Err(Invalid("raw_bytes"))
    else if (a.written == 0) != (a.researchBytes == 0) then Err(Invalid("research_bytes"))
    else if (a.quarantined == 0) != (a.failureBytes == 0) then Err(Invalid("failure_bytes"))
    else if !DigestPresent(a.rawBytes, a.rawSha, emptySha) then Err(Invalid("raw_sha256"))
    else if !DigestPresent(a.researchBytes, a.researchSha, emptySha) then Err(Invalid("research_sha256"))
    else if !DigestPresent(a.failureBytes, a.failureSha, emptySha) then Err(Invalid("failure_sha256"))
    else if !ConversionStream.ReportAccepted(ReportFields(a)) then Err(Invalid("report"))
    else Ok(a)
  }

  /** Exactly these artifacts are accepted: named after a pair, of which nothing is lost between lines, records and failures, and
      whose three texts are empty together with their counts and, by digest, with their bytes. */
  lemma ArtifactAcceptedExactly(a: Artifact, emptySha: Sha)
    ensures CheckArtifact(a, emptySha).Ok? <==>
            && a.symbol.Canonical() && Supported(a.interval)
            && a.rawName == a.researchName == RawOutputName(a.symbol.Text(), a.interval)
            && a.failureName == FailureOutputName(a.symbol.Text(), a.interval)
            && a.linesSeen == a.written + a.quarantined && (a.success <==> a.quarantined == 0)
            && (a.linesSeen == 0 <==> a.rawBytes == 0) && (a.rawBytes == 0 <==> a.rawSha == emptySha)
            && (a.written == 0 <==> a.researchBytes == 0) && (a.researchBytes == 0 <==> a.researchSha == emptySha)
            && (a.quarantined == 0 <==> a.failureBytes == 0) && (a.failureBytes == 0 <==> a.failureSha == emptySha)
            && (if a.written == 0 then a.coverageStart.None? && a.coverageEnd.None?
                else a.coverageStart.Some? && a.coverageEnd.Some? && 0 <= a.coverageStart.value < a.coverageEnd.value)
    ensures CheckArtifact(a, emptySha).Ok? ==> CheckArtifact(a, emptySha).value == a
  {
    hide RawOutputName, FailureOutputName, Supported, MarketSymbol.Canonical;
  }

  function ReportFields(a: Artifact): ConversionStream.Report {
    ConversionStream.Report(a.rawName, a.linesSeen, a.written, a.quarantined, a.coverageStart, a.coverageEnd,
                            a.researchSha, a.failureSha, a.researchBytes, a.failureBytes, a.success)
  }

  function ArtifactFromReport(symbol: MarketSymbol, interval: string, rawSha: Sha, rawBytes: nat,
                              r: ConversionStream.Report, emptySha: Sha): Result<Artifact, ManifestError>
  {
    var rawName := RawOutputName(symbol.Text(), interval);
    if r.file != rawName then Err(Invalid("report"))
    else CheckArtifact(
      Artifact(rawName, rawName, FailureOutputName(symbol.Text(), interval), symbol, interval, rawSha, rawBytes,
               r.linesSeen, r.written, r.quarantined, r.coverageStart, r.coverageEnd, r.researchSha, r.failureSha,
               r.researchBytes, r.failureBytes, r.success), emptySha)
  }

  /** The two serializations end in a newline, so they are never empty. */
  ghost predicate TextsNonEmpty(codec: Converter.Codec) {
    && (forall c :: codec.candleText(c) != [])
    && (forall f :: codec.failureText(f) != [])
  }

  /** No non-empty text hashes to the digest of the empty text. */
  ghost predicate EmptyDigestUnique(codec: Converter.Codec) {
    forall data :: codec.sha(data) == codec.sha([]) ==> data == []
  }

  lemma {:induction false} BytesPresent(codec: Converter.Codec, ctx: Converter.Context, lines: seq<seq<Converter.Byte>>)
    requires TextsNonEmpty(codec) && ConversionStream.Fold(codec, ctx, lines).Some?
    ensures var t := ConversionStream.Fold(codec, ctx, lines).value;
            && (t.written == 0 <==> t.research == []) && (t.quarantined == 0 <==> t.failures == [])
            && t.linesSeen == |lines|
  {
    hide Converter.Judge;
    if lines != [] {
      BytesPresent(codec, ctx, lines[..|lines| - 1]);
    }
  }

  /** The report of any conversion of a file of the pair becomes an artifact: no artifact check can fail. */
  lemma ConversionYieldsArtifact(codec: Converter.Codec, ctx: Converter.Context, data: seq<Converter.Byte>, symbol: MarketSymbol)
    requires TextsNonEmpty(codec) && EmptyDigestUnique(codec)
    requires symbol.Canonical() && Supported(ctx.interval) && ctx.file == RawOutputName(symbol.Text(), ctx.interval)
    requires ConversionStream.Fold(codec, ctx, ConversionStream.Lines(data)).Some?
    ensures var t := ConversionStream.Fold(codec, ctx, ConversionStream.Lines(data)).value;
            var a := ArtifactFromReport(symbol, ctx.interval, codec.sha(data), |data|, ConversionStream.ReportOf(codec, ctx, t), codec.sha([]));
            && a.Ok? && Describes(a.value, codec, data, ConversionStream.Lines(data), t)
            && a.value.symbol == symbol && a.value.interval == ctx.interval && a.value.rawName == a.value.researchName == ctx.file
            && a.value.failureName == FailureOutputName(symbol.Text(), ctx.interval)
  {
    hide ConversionStream.Fold, ConversionStream.Lines, RawOutputName, FailureOutputName, ArtifactFromReport, ConversionStream.ReportAccepted;
    var lines := ConversionStream.Lines(data);
    var t := ConversionStream.Fold(codec, ctx, lines).value;
    BytesPresent(codec, ctx, lines);
    CoverageNotNegative(codec, ctx, lines);
    ConversionStream.ReportNeverRejected(codec, ctx, lines);
    ConversionStream.LinesStep(data);
    var report := ConversionStream.ReportOf(codec, ctx, t);
    ReportYieldsArtifact(codec.sha(data), |data|, symbol, ctx.interval, report, codec.sha([]));
    ArtifactFields(symbol, ctx.interval, codec.sha(data), |data|, report, codec.sha([]));
  }

  /** An artifact with the sizes and digests of the raw bytes and of what was written, the counts of the lines, and the coverage
      of the accepted candles. */
  predicate Describes(a: Artifact, codec: Converter.Codec, data: seq<Converter.Byte>, lines: seq<seq<Converter.Byte>>, t: ConversionStream.Totals) {
    && a.rawBytes == |data| && a.rawSha == codec.sha(data)
    && a.researchBytes == |t.research| && a.researchSha == codec.sha(t.research)
    && a.failureBytes == |t.failures| && a.failureSha == codec.sha(t.failures)
    && a.linesSeen == |lines| == t.written + t.quarantined && a.written == t.written && a.quarantined == t.quarantined
    && a.coverageStart == t.coverageStart && a.coverageEnd == t.coverageEnd && (a.success <==> t.quarantined == 0)
  }

  /** What the checks hand through. */
  lemma ArtifactFields(symbol: MarketSymbol, interval: string, rawSha: Sha, rawBytes: nat, r: ConversionStream.Report, emptySha: Sha)
    requires ArtifactFromReport(symbol, interval, rawSha, rawBytes, r, emptySha).Ok?
    ensures var a := ArtifactFromReport(symbol, interval, rawSha, rawBytes, r, emptySha).value;
            && CheckArtifact(a, emptySha).Ok? && a.symbol == symbol && a.interval == interval
            && a.rawName == a.researchName == r.file == RawOutputName(symbol.Text(), interval)
            && a.failureName == FailureOutputName(symbol.Text(), interval)
            && a.rawSha == rawSha && a.rawBytes == rawBytes && a.linesSeen == r.linesSeen == r.written + r.quarantined
            && a.written == r.written && a.quarantined == r.quarantined
            && a.coverageStart == r.coverageStart && a.coverageEnd == r.coverageEnd && a.researchSha == r.researchSha && a.failureSha == r.failureSha
            && a.researchBytes == r.researchBytes && a.failureBytes == r.failureBytes && a.success == r.success
  {
    hide RawOutputName, FailureOutputName;
  }

  lemma CoverageNotNegative(codec: Converter.Codec, ctx: Converter.Context, lines: seq<seq<Converter.Byte>>)
    requires ConversionStream.Fold(codec, ctx, lines).Some?
    ensures var t := ConversionStream.Fold(codec, ctx, lines).value;
            (t.coverageStart.Some? ==> t.coverageStart.value >= 0) && (t.coverageEnd.Some? ==> t.coverageEnd.value >= 0)
  {
    hide ConversionStream.Fold, ConversionStream.AcceptedCandles, ConversionStream.CandleTexts, BoundaryAfter;
    ConversionStream.FoldFacts(codec, ctx, lines);
  }

  lemma ReportYieldsArtifact(rawSha: Sha, rawBytes: nat, symbol: MarketSymbol, interval: string, r: ConversionStream.Report, emptySha: Sha)
    requires symbol.Canonical() && Supported(interval) && r.file == RawOutputName(symbol.Text(), interval)
    requires (r.coverageStart.Some? ==> r.coverageStart.value >= 0) && (r.coverageEnd.Some? ==> r.coverageEnd.value >= 0)
    requires (r.linesSeen == 0 <==> rawBytes == 0) && (r.written == 0 <==> r.researchBytes == 0) && (r.quarantined == 0 <==> r.failureBytes == 0)
    requires DigestPresent(rawBytes, rawSha, emptySha) && DigestPresent(r.researchBytes, r.researchSha, emptySha)
    requires DigestPresent(r.failureBytes, r.failureSha, emptySha) && ConversionStream.ReportAccepted(r)
    ensures ArtifactFromReport(symbol, interval, rawSha, rawBytes, r, emptySha).Ok?
  {
    hide RawOutputName, FailureOutputName, ConversionStream.ReportAccepted, Supported, MarketSymbol.Canonical, DigestPresent;
  }

  // ---------------------------------------------------------------- the raw manifest

  predicate NamesAscending(names: seq<string>) {
    forall i, j :: 0 <= i < j < |names| ==> LexLess(names[i], names[j])
  }

  function NamesOf(files: seq<Dataset.FileInfo>): (names: seq<string>)
    ensures |names| == |files| && forall i :: 0 <= i < |files| ==> names[i] == files[i].name
  {
    seq(|files|, i requires 0 <= i < |files| => files[i].name)
  }

  predicate AllowedName(m: Dataset.DownloadManifest, name: string) {
    exists i, j :: 0 <= i < |m.symbols| && 0 <= j < |m.intervals| && RawOutputName(m.symbols[i].Text(), m.intervals[j]) == name
  }

  /** Identity and request of a manifest that a finished download leaves behind. */
  predicate RequestFieldsValid(m: Dataset.DownloadManifest) {
    && m.datasetId != "" && m.complete && !m.failed && 1 <= m.pageLimit <= 1000
    && m.symbols != [] && (forall i :: 0 <= i < |m.symbols| ==> m.symbols[i].Canonical())
    && (forall i, j :: 0 <= i < j < |m.symbols| ==> LexLess(m.symbols[i].Text(), m.symbols[j].Text()))
    && m.intervals != [] && (forall i :: 0 <= i < |m.intervals| ==> Supported(m.intervals[i]))
    && (forall i, j :: 0 <= i < j < |m.intervals| ==> LexLess(m.intervals[i], m.intervals[j]))
    && m.requestedStartUs < m.requestedEndUs
  }

  predicate FileValid(m: Dataset.DownloadManifest, f: Dataset.FileInfo) {
    AllowedName(m, f.name) && f.rangeStart < f.rangeEnd
  }

  predicate FileInRange(m: Dataset.DownloadManifest, f: Dataset.FileInfo) {
    m.requestedStartUs <= 1000 * f.rangeStart && 1000 * f.rangeEnd <= m.requestedEndUs
  }

  /** What `_validate_raw_manifest` accepts. */
  ghost predicate RawManifestValid(m: Dataset.DownloadManifest) {
    && RequestFieldsValid(m)
    && (forall i :: 0 <= i < |m.files| ==> FileValid(m, m.files[i]) && FileInRange(m, m.files[i]))
    && NamesAscending(NamesOf(m.files))
    && m.recordCount == Dataset.RecordTotal(m.files)
    && m.actualStart == (if m.files == [] then None else Some(m.files[0].rangeStart))
    && m.actualEnd == (if m.files == [] then None else Some(m.files[|m.files| - 1].rangeEnd))
  }

  /** In an accepted manifest every file is that of a requested pair, no two files are of one pair, every range lies in the
      requested one, and the records add up. */
  lemma ValidManifestFiles(m: Dataset.DownloadManifest)
    requires RawManifestValid(m)
    ensures m.complete && !m.failed && m.datasetId != "" && m.requestedStartUs < m.requestedEndUs && 1 <= m.pageLimit <= 1000
    ensures m.symbols != [] && m.intervals != [] && (forall interval :: interval in m.intervals ==> Supported(interval))
    ensures forall i, j :: 0 <= i < j < |m.symbols| ==> LexLess(m.symbols[i].Text(), m.symbols[j].Text())
    ensures forall i, j :: 0 <= i < j < |m.intervals| ==> LexLess(m.intervals[i], m.intervals[j])
    ensures m.actualStart == (if m.files == [] then None else Some(m.files[0].rangeStart))
    ensures m.actualEnd == (if m.files == [] then None else Some(m.files[|m.files| - 1].rangeEnd))
    ensures forall k :: 0 <= k < |m.files| ==>
              && (exists symbol, interval :: symbol in m.symbols && interval in m.intervals && m.files[k].name == RawOutputName(symbol.Text(), interval))
              && m.requestedStartUs <= 1000 * m.files[k].rangeStart < 1000 * m.files[k].rangeEnd <= m.requestedEndUs
    ensures forall i, j :: 0 <= i < j < |m.files| ==> m.files[i].name != m.files[j].name
    ensures m.recordCount == Dataset.TotalOf(m.files, (f: Dataset.FileInfo) => f.records)
  {
    hide RawOutputName, LexLess;
    Dataset.RecordsAdd(m.files);
    forall k | 0 <= k < |m.files|
      ensures exists symbol, interval :: symbol in m.symbols && interval in m.intervals && m.files[k].name == RawOutputName(symbol.Text(), interval)
    {
      assert FileValid(m, m.files[k]);
      var i, j :| 0 <= i < |m.symbols| && 0 <= j < |m.intervals| && RawOutputName(m.symbols[i].Text(), m.intervals[j]) == m.files[k].name;
      assert m.symbols[i] in m.symbols && m.intervals[j] in m.intervals;
    }
    forall i, j | 0 <= i < j < |m.files| ensures m.files[i].name != m.files[j].name {
      assert LexLess(NamesOf(m.files)[i], NamesOf(m.files)[j]);
      LexIrreflexive(m.files[i].name);
    }
  }

  lemma AdjacentAscending(names: seq<string>, name: string)
    requires NamesAscending(names) && (names != [] ==> LexLess(names[|names| - 1], name))
    ensures NamesAscending(names + [name])
  {
    hide LexLess;
    var all := names + [name];
    forall i, j | 0 <= i < j < |all| ensures LexLess(all[i], all[j]) {
      if j == |names| && i < |names| - 1 {
        LexTransitive(names[i], names[|names| - 1], name);
      }
    }
  }

  method ValidateRawManifest(m: Dataset.DownloadManifest) returns (ok: bool)
    ensures ok <==> RawManifestValid(m)
  {
    hide LexLess, FileInRange, RequestFieldsValid;
    if !RequestFieldsValid(m) {
      return false;
    }
    var listed, total := ValidateFiles(m);
    if !listed || m.recordCount != total {
      return false;
    }
    for i := 0 to |m.files|
      invariant forall k :: 0 <= k < i ==> FileInRange(m, m.files[k])
    {
      if !FileInRange(m, m.files[i]) {
        return false;
      }
    }
    if m.files == [] {
      return m.actualStart.None? && m.actualEnd.None?;
    }
    return m.actualStart == Some(m.files[0].rangeStart) && m.actualEnd == Some(m.files[|m.files| - 1].rangeEnd);
  }

  method ValidateFiles(m: Dataset.DownloadManifest) returns (ok: bool, total: nat)
    ensures ok <==> (forall i :: 0 <= i < |m.files| ==> FileValid(m, m.files[i])) && NamesAscending(NamesOf(m.files))
    ensures ok ==> total == Dataset.RecordTotal(m.files)
  {
    hide LexLess, FileValid;
    total := 0;
    for i := 0 to |m.files|
      invariant forall k :: 0 <= k < i ==> FileValid(m, m.files[k])
      invariant NamesAscending(NamesOf(m.files[..i]))
      invariant total == Dataset.RecordTotal(m.files[..i])
    {
      assert m.files[..i + 1][..i] == m.files[..i];
      if !FileValid(m, m.files[i]) {
        return false, total;
      }
      if i > 0 && !LexLess(m.files[i - 1].name, m.files[i].name) {
        assert NamesOf(m.files)[i - 1] == m.files[i - 1].name && NamesOf(m.files)[i] == m.files[i].name;
        return false, total;
      }
      AdjacentAscending(NamesOf(m.files[..i]), m.files[i].name);
      assert NamesOf(m.files[..i + 1]) == NamesOf(m.files[..i]) + [m.files[i].name];
      total := total + m.files[i].records;
    }
    assert m.files[..|m.files|] == m.files;
    return true, total;
  }

  // ---------------------------------------------------------------- the research manifest

  datatype ResearchManifest = ResearchManifest(
    datasetId: string, symbols: seq<MarketSymbol>, intervals: seq<string>, requestedStartUs: int, requestedEndUs: int,
    coverageStartUs: Option<int>, coverageEndUs: Option<int>, researchChecksum: Sha, failureChecksum: Sha,
    expected: seq<string>, files: seq<Artifact>,
    sums: Sums, success: bool, complete: bool, maxLineBytes: nat)

  datatype Sums = Sums(linesSeen: nat, written: nat, quarantined: nat, researchBytes: nat, failureBytes: nat)

  function SumsOf(files: seq<Artifact>): Sums {
    if files == [] then Sums(0, 0, 0, 0, 0)
    else
      var s, a := SumsOf(files[..|files| - 1]), files[|files| - 1];
      Sums(s.linesSeen + a.linesSeen, s.written + a.written, s.quarantined + a.quarantined,
           s.researchBytes + a.researchBytes, s.failureBytes + a.failureBytes)
  }

  /** Earliest start and latest end over the artifacts that have records. */
  function Coverage(files: seq<Artifact>): Option<(int, int)> {
    if files == [] then None
    else
      var earlier, a := Coverage(files[..|files| - 1]), files[|files| - 1];
      if a.written == 0 || a.coverageStart.None? || a.coverageEnd.None? then earlier
      else match earlier
        case None => Some((a.coverageStart.value, a.coverageEnd.value))
        case Some((start, end)) =>
          Some((if a.coverageStart.value < start then a.coverageStart.value else start,
                if a.coverageEnd.value > end then a.coverageEnd.value else end))
  }

  function ArtifactNames(files: seq<Artifact>): (names: seq<string>)
    ensures |names| == |files| && forall i :: 0 <= i < |files| ==> names[i] == files[i].rawName
  {
    seq(|files|, i requires 0 <= i < |files| => files[i].rawName)
  }

  function SetOf(names: seq<string>): set<string> { set i | 0 <= i < |names| :: names[i] }

  /** Sorted by raw name, distinct in every name and in the pair, requested, and expected. */
  predicate ListingValid(files: seq<Artifact>, symbols: seq<MarketSymbol>, intervals: seq<string>, expected: seq<string>) {
    && NamesAscending(ArtifactNames(files))
    && (forall i, j :: 0 <= i < j < |files| ==>
          && files[i].researchName != files[j].researchName && files[i].failureName != files[j].failureName
          && (files[i].symbol, files[i].interval) != (files[j].symbol, files[j].interval))
    && (forall i :: 0 <= i < |files| ==>
          files[i].symbol in symbols && files[i].interval in intervals && files[i].rawName in expected)
  }

  /** The checks of `ResearchDatasetManifest.__post_init__` that can fail, in order. */
  function CheckManifest(m: ResearchManifest, emptySha: Sha): Result<ResearchManifest, ManifestError> {
    if m.datasetId == "" then Err(Invalid("dataset_id"))
    else if m.requestedEndUs <= m.requestedStartUs then Err(Invalid("requested_end"))
    else if m.maxLineBytes == 0 then Err(Invalid("max_line_bytes"))
    else if !ListingValid(m.files, m.symbols, m.intervals, m.expected) then Err(Invalid("files"))
    else if !CompletionTruthful(m.complete, ArtifactNames(m.files), m.expected) then Err(Invalid("completion_status"))
    else if WrongSum(m.sums, SumsOf(m.files)).Some? then Err(Invalid(WrongSum(m.sums, SumsOf(m.files)).value))
    else if m.success != (m.sums.quarantined == 0) then Err(Invalid("conversion_status"))
    else if !CoverageValid(m) then Err(Invalid("coverage"))
    else if m.sums.researchBytes == 0 && m.researchChecksum != emptySha then Err(Invalid("research_checksum"))
    else if m.sums.failureBytes == 0 && m.failureChecksum != emptySha then Err(Invalid("failure_checksum"))
    else Ok(m)
  }

  /** A complete manifest lists every expected file, a partial one a proper part of them. */
  predicate CompletionTruthful(complete: bool, names: seq<string>, expected: seq<string>) {
    if complete then SetOf(names) == SetOf(expected) else SetOf(names) < SetOf(expected)
  }

  function WrongSum(told: Sums, sums: Sums): Option<string> {
    if told.linesSeen != sums.linesSeen then Some("lines_seen")
    else if told.written != sums.written then Some("records_written")
    else if told.quarantined != sums.quarantined then Some("records_quarantined")
    else if told.researchBytes != sums.researchBytes then Some("research_bytes")
    else if told.failureBytes != sums.failureBytes then Some("failure_bytes")
    else None
  }

  /** Without records there is no coverage; with records it is that of the artifacts and lies in the requested range. */
  predicate CoverageValid(m: ResearchManifest) {
    if m.sums.written == 0 then m.coverageStartUs.None? && m.coverageEndUs.None?
    else CoverageTruthful(m)
  }

  predicate CoverageTruthful(m: ResearchManifest) {
    && m.coverageStartUs.Some? && m.coverageEndUs.Some? && m.coverageStartUs.value < m.coverageEndUs.value
    && m.requestedStartUs <= m.coverageStartUs.value && m.coverageEndUs.value <= m.requestedEndUs
    && Coverage(m.files).Some?
    && m.coverageStartUs.value == 1000 * Coverage(m.files).value.0 && m.coverageEndUs.value == 1000 * Coverage(m.files).value.1
  }

  function RecordsOf(files: seq<Dataset.FileInfo>, name: string): Option<nat> {
    if files == [] then None
    else if files[|files| - 1].name == name then Some(files[|files| - 1].records)
    else RecordsOf(files[..|files| - 1], name)
  }

  /** Builds the manifest of a validated raw manifest from the artifacts of its converted files. */
  function BuildResearchManifest(raw: Dataset.DownloadManifest, files: seq<Artifact>, researchChecksum: Sha, failureChecksum: Sha,
                                 maxLineBytes: nat, complete: bool, emptySha: Sha): Result<ResearchManifest, ManifestError>
  {
    if exists i :: 0 <= i < |files| && RecordsOf(raw.files, files[i].rawName) != Some(files[i].linesSeen) then Err(Invalid("files"))
    else CheckManifest(Assembled(raw, files, researchChecksum, failureChecksum, maxLineBytes, complete), emptySha)
  }

  function Assembled(raw: Dataset.DownloadManifest, files: seq<Artifact>, researchChecksum: Sha, failureChecksum: Sha,
                     maxLineBytes: nat, complete: bool): ResearchManifest
  {
    var coverage := Coverage(files);
    ResearchManifest(
      raw.datasetId, raw.symbols, raw.intervals, raw.requestedStartUs, raw.requestedEndUs,
      if coverage.None? then None else Some(1000 * coverage.value.0), if coverage.None? then None else Some(1000 * coverage.value.1),
      researchChecksum, failureChecksum, NamesOf(raw.files), files,
      SumsOf(files), SumsOf(files).quarantined == 0, complete, maxLineBytes)
  }

  // ---------------------------------------------------------------- when the manifest can be built

  /** An artifact converted under the plan of a raw file: its identity and its records are those of the raw manifest, and its
      candles lie in the requested range, in milliseconds. */
  predicate Planned(raw: Dataset.DownloadManifest, a: Artifact, emptySha: Sha) {
    && CheckArtifact(a, emptySha).Ok? && IntervalWord(a.interval)
    && RecordsOf(raw.files, a.rawName) == Some(a.linesSeen)
    && (a.written > 0 ==> raw.requestedStartUs / 1000 <= a.coverageStart.value && a.coverageEnd.value <= raw.requestedEndUs / 1000)
  }

  /** No accepted candle opens before the requested start, to the microsecond. */
  predicate StartHonoured(raw: Dataset.DownloadManifest, files: seq<Artifact>) {
    forall i :: 0 <= i < |files| && files[i].written > 0 ==>
      files[i].coverageStart.Some? && raw.requestedStartUs <= 1000 * files[i].coverageStart.value
  }

  /** The start of an artifact with records, and not after that of any. */
  ghost predicate EarliestStart(start: int, files: seq<Artifact>) {
    && (exists i :: 0 <= i < |files| && files[i].written > 0 && files[i].coverageStart == Some(start))
    && (forall i :: 0 <= i < |files| && files[i].written > 0 ==> files[i].coverageStart.Some? && start <= files[i].coverageStart.value)
  }

  /** The end of an artifact with records, and not before that of any. */
  ghost predicate LatestEnd(end: int, files: seq<Artifact>) {
    && (exists i :: 0 <= i < |files| && files[i].written > 0 && files[i].coverageEnd == Some(end))
    && (forall i :: 0 <= i < |files| && files[i].written > 0 ==> files[i].coverageEnd.Some? && end >= files[i].coverageEnd.value)
  }

  /** Artifacts are only built if their checks pass. */
  predicate AllChecked(files: seq<Artifact>, emptySha: Sha) {
    forall i :: 0 <= i < |files| ==> CheckArtifact(files[i], emptySha).Ok?
  }

  lemma {:induction false} CoverageExtremes(files: seq<Artifact>, emptySha: Sha)
    requires AllChecked(files, emptySha)
    ensures Coverage(files).None? <==> forall i :: 0 <= i < |files| ==> files[i].written == 0
    ensures Coverage(files).None? <==> SumsOf(files).written == 0
    ensures Coverage(files).Some? ==> EarliestStart(Coverage(files).value.0, files) && LatestEnd(Coverage(files).value.1, files)
  {
    hide CheckArtifact;
    if files != [] {
      var init, a := files[..|files| - 1], files[|files| - 1];
      CoverageExtremes(init, emptySha);
      CheckedCoverage(a, emptySha);
      if Coverage(init).Some? {
        var (start, end) := Coverage(init).value;
        var i :| 0 <= i < |init| && init[i].written > 0 && init[i].coverageStart == Some(start);
        var j :| 0 <= j < |init| && init[j].written > 0 && init[j].coverageEnd == Some(end);
        assert files[i] == init[i] && files[j] == init[j];
      }
      assert forall i :: 0 <= i < |init| ==> files[i] == init[i];
    }
  }

  lemma CheckedCoverage(a: Artifact, emptySha: Sha)
    requires CheckArtifact(a, emptySha).Ok?
    ensures if a.written == 0 then a.coverageStart.None? && a.coverageEnd.None? else a.coverageStart.Some? && a.coverageEnd.Some?
  {
    hide RawOutputName, FailureOutputName;
  }

  lemma {:induction false} CoverageFacts(raw: Dataset.DownloadManifest, files: seq<Artifact>, emptySha: Sha)
    requires forall i :: 0 <= i < |files| ==> Planned(raw, files[i], emptySha)
    ensures Coverage(files).Some? <==> SumsOf(files).written > 0
    ensures Coverage(files).Some? ==>
              var (start, end) := Coverage(files).value;
              start < end && raw.requestedStartUs / 1000 <= start && end <= raw.requestedEndUs / 1000
    ensures SumsOf(files).linesSeen == SumsOf(files).written + SumsOf(files).quarantined
  {
    hide RawOutputName, FailureOutputName, RecordsOf;
    if files != [] {
      CoverageFacts(raw, files[..|files| - 1], emptySha);
      assert Planned(raw, files[|files| - 1], emptySha);
    }
  }

  lemma {:induction false} RecordsOfKnown(files: seq<Dataset.FileInfo>, name: string)
    requires RecordsOf(files, name).Some?
    ensures name in NamesOf(files) && exists i :: 0 <= i < |files| && files[i].name == name && files[i].records == RecordsOf(files, name).value
  {
    if files[|files| - 1].name == name {
      assert NamesOf(files)[|files| - 1] == name;
    } else {
      RecordsOfKnown(files[..|files| - 1], name);
      var i :| 0 <= i < |files| - 1 && files[..|files| - 1][i].name == name && files[..|files| - 1][i].records == RecordsOf(files, name).value;
      assert files[i].name == name && NamesOf(files)[i] == name;
    }
  }

  lemma SupportedIsWord(interval: string)
    requires Supported(interval)
    ensures IntervalWord(interval)
  {
  }

  /** An artifact of a raw file belongs to the request: its symbol and interval are requested ones. */
  lemma ArtifactBelongs(raw: Dataset.DownloadManifest, a: Artifact, emptySha: Sha)
    requires RawManifestValid(raw) && Planned(raw, a, emptySha)
    ensures a.symbol in raw.symbols && a.interval in raw.intervals && a.rawName in NamesOf(raw.files)
  {
    hide RawOutputName, FailureOutputName, RecordsOf, LexLess;
    RecordsOfKnown(raw.files, a.rawName);
    var k :| 0 <= k < |raw.files| && raw.files[k].name == a.rawName;
    assert FileValid(raw, raw.files[k]);
    var i, j :| 0 <= i < |raw.symbols| && 0 <= j < |raw.intervals| && RawOutputName(raw.symbols[i].Text(), raw.intervals[j]) == a.rawName;
    SupportedIsWord(raw.intervals[j]);
    RawNameOrder(raw.symbols[i], raw.intervals[j], a.symbol, a.interval);
  }

  /** Artifacts with ascending raw names have distinct research names, failure names and pairs. */
  lemma ArtifactsDistinct(raw: Dataset.DownloadManifest, files: seq<Artifact>, i: nat, j: nat, emptySha: Sha)
    requires i < j < |files| && Planned(raw, files[i], emptySha) && Planned(raw, files[j], emptySha)
    requires LexLess(files[i].rawName, files[j].rawName)
    ensures files[i].researchName != files[j].researchName && files[i].failureName != files[j].failureName
    ensures (files[i].symbol, files[i].interval) != (files[j].symbol, files[j].interval)
  {
    hide RawOutputName, FailureOutputName, RecordsOf, LexLess, ConversionStream.ReportAccepted;
    LexIrreflexive(files[i].rawName);
    RawNameOrder(files[i].symbol, files[i].interval, files[j].symbol, files[j].interval);
  }

  lemma ListsPass(raw: Dataset.DownloadManifest, files: seq<Artifact>, emptySha: Sha)
    requires RawManifestValid(raw) && NamesAscending(ArtifactNames(files))
    requires forall i :: 0 <= i < |files| ==> Planned(raw, files[i], emptySha)
    ensures ListingValid(files, raw.symbols, raw.intervals, NamesOf(raw.files))
    ensures SetOf(ArtifactNames(files)) <= SetOf(NamesOf(raw.files))
  {
    hide Planned, RawManifestValid, LexLess;
    forall i | 0 <= i < |files|
      ensures files[i].symbol in raw.symbols && files[i].interval in raw.intervals && files[i].rawName in NamesOf(raw.files)
    {
      ArtifactBelongs(raw, files[i], emptySha);
    }
    forall i, j | 0 <= i < j < |files|
      ensures files[i].researchName != files[j].researchName && files[i].failureName != files[j].failureName
      ensures (files[i].symbol, files[i].interval) != (files[j].symbol, files[j].interval)
    {
      assert LexLess(ArtifactNames(files)[i], ArtifactNames(files)[j]);
      ArtifactsDistinct(raw, files, i, j, emptySha);
    }
  }

  /** For a valid raw manifest, artifacts in name order that were converted as planned, and a truthful completion status,
      building succeeds exactly when no accepted candle opens before the requested start; its totals are then the sums over
      the artifacts and nothing is lost between lines, written and quarantined records. */
  lemma BuildSucceedsExactly(raw: Dataset.DownloadManifest, files: seq<Artifact>, researchChecksum: Sha, failureChecksum: Sha,
                             maxLineBytes: nat, complete: bool, emptySha: Sha)
    requires RawManifestValid(raw) && NamesAscending(ArtifactNames(files)) && maxLineBytes > 0
    requires forall i :: 0 <= i < |files| ==> Planned(raw, files[i], emptySha)
    requires complete <==> SetOf(ArtifactNames(files)) == SetOf(NamesOf(raw.files))
    requires SumsOf(files).researchBytes == 0 ==> researchChecksum == emptySha
    requires SumsOf(files).failureBytes == 0 ==> failureChecksum == emptySha
    ensures var m := BuildResearchManifest(raw, files, researchChecksum, failureChecksum, maxLineBytes, complete, emptySha);
            && (m.Ok? <==> StartHonoured(raw, files))
            && (m.Ok? ==> m.value.sums == SumsOf(files) && m.value.files == files
                          && m.value.sums.linesSeen == m.value.sums.written + m.value.sums.quarantined
                          && (m.value.success <==> m.value.sums.quarantined == 0))
  {
    hide *;
    ListsPass(raw, files, emptySha);
    CoverageFacts(raw, files, emptySha);
    CompletionPasses(ArtifactNames(files), NamesOf(raw.files), complete);
    CoveragePasses(raw, files, researchChecksum, failureChecksum, maxLineBytes, complete, emptySha);
    PlannedRecords(raw, files, emptySha);
    var m := Assembled(raw, files, researchChecksum, failureChecksum, maxLineBytes, complete);
    AssembledFields(raw, files, researchChecksum, failureChecksum, maxLineBytes, complete);
    ChecksPass(m, emptySha);
    BuildChecks(raw, files, researchChecksum, failureChecksum, maxLineBytes, complete, emptySha);
  }

  lemma BuildChecks(raw: Dataset.DownloadManifest, files: seq<Artifact>, researchChecksum: Sha, failureChecksum: Sha,
                    maxLineBytes: nat, complete: bool, emptySha: Sha)
    requires forall i :: 0 <= i < |files| ==> RecordsOf(raw.files, files[i].rawName) == Some(files[i].linesSeen)
    ensures BuildResearchManifest(raw, files, researchChecksum, failureChecksum, maxLineBytes, complete, emptySha)
         == CheckManifest(Assembled(raw, files, researchChecksum, failureChecksum, maxLineBytes, complete), emptySha)
  {
    hide RecordsOf, CheckManifest, Assembled;
  }

  lemma CompletionPasses(names: seq<string>, expected: seq<string>, complete: bool)
    requires SetOf(names) <= SetOf(expected)
    ensures CompletionTruthful(complete, names, expected) <==> (complete <==> SetOf(names) == SetOf(expected))
  {
    hide SetOf;
  }

  /** With everything else in order, only the coverage can fail. */
  lemma ChecksPass(m: ResearchManifest, emptySha: Sha)
    requires m.datasetId != "" && m.requestedStartUs < m.requestedEndUs && m.maxLineBytes > 0
    requires ListingValid(m.files, m.symbols, m.intervals, m.expected) && CompletionTruthful(m.complete, ArtifactNames(m.files), m.expected)
    requires m.sums == SumsOf(m.files) && m.success == (m.sums.quarantined == 0)
    requires m.sums.researchBytes == 0 ==> m.researchChecksum == emptySha
    requires m.sums.failureBytes == 0 ==> m.failureChecksum == emptySha
    ensures CheckManifest(m, emptySha) == if CoverageValid(m) then Ok(m) else Err(Invalid("coverage"))
  {
    hide ListingValid, CompletionTruthful, CoverageValid, SumsOf, ArtifactNames;
  }

  lemma AssembledFields(raw: Dataset.DownloadManifest, files: seq<Artifact>, researchChecksum: Sha, failureChecksum: Sha,
                        maxLineBytes: nat, complete: bool)
    ensures var m := Assembled(raw, files, researchChecksum, failureChecksum, maxLineBytes, complete);
            && m.datasetId == raw.datasetId && m.symbols == raw.symbols && m.intervals == raw.intervals
            && m.requestedStartUs == raw.requestedStartUs && m.requestedEndUs == raw.requestedEndUs
            && m.researchChecksum == researchChecksum && m.failureChecksum == failureChecksum
            && m.expected == NamesOf(raw.files) && m.files == files && m.sums == SumsOf(files)
            && m.success == (m.sums.quarantined == 0) && m.complete == complete && m.maxLineBytes == maxLineBytes
  {
    hide SumsOf, Coverage, NamesOf;
  }

  lemma PlannedRecords(raw: Dataset.DownloadManifest, files: seq<Artifact>, emptySha: Sha)
    requires RawManifestValid(raw) && forall i :: 0 <= i < |files| ==> Planned(raw, files[i], emptySha)
    ensures forall i :: 0 <= i < |files| ==> RecordsOf(raw.files, files[i].rawName) == Some(files[i].linesSeen)
    ensures raw.datasetId != "" && raw.requestedStartUs < raw.requestedEndUs
  {
    hide RecordsOf, CheckArtifact, NamesAscending, FileValid, FileInRange;
  }

  lemma CoveragePasses(raw: Dataset.DownloadManifest, files: seq<Artifact>, researchChecksum: Sha, failureChecksum: Sha,
                       maxLineBytes: nat, complete: bool, emptySha: Sha)
    requires forall i :: 0 <= i < |files| ==> Planned(raw, files[i], emptySha)
    ensures CoverageValid(Assembled(raw, files, researchChecksum, failureChecksum, maxLineBytes, complete)) <==> StartHonoured(raw, files)
  {
    CoverageFacts(raw, files, emptySha);
    CoverageExtremes(files, emptySha);
    hide Planned, SumsOf, Coverage, NamesOf, CheckArtifact;
  }

  lemma {:induction false} SumsAdd(files: seq<Artifact>)
    ensures SumsOf(files).linesSeen == Dataset.TotalOf(files, (a: Artifact) => a.linesSeen)
    ensures SumsOf(files).written == Dataset.TotalOf(files, (a: Artifact) => a.written)
    ensures SumsOf(files).quarantined == Dataset.TotalOf(files, (a: Artifact) => a.quarantined)
    ensures SumsOf(files).researchBytes == Dataset.TotalOf(files, (a: Artifact) => a.researchBytes)
    ensures SumsOf(files).failureBytes == Dataset.TotalOf(files, (a: Artifact) => a.failureBytes)
  {
    if files != [] { SumsAdd(files[..|files| - 1]); }
  }

  /** Whatever artifacts it is built from, a manifest tells of them what is true: their totals, the earliest start and the latest
      end of those with records, within the requested range; each is of a raw file with as many records as it has lines; and it
      is complete exactly when no raw file is missing. */
  lemma BuiltManifestTruthful(raw: Dataset.DownloadManifest, files: seq<Artifact>, researchChecksum: Sha, failureChecksum: Sha,
                              maxLineBytes: nat, complete: bool, emptySha: Sha)
    requires AllChecked(files, emptySha)
    requires BuildResearchManifest(raw, files, researchChecksum, failureChecksum, maxLineBytes, complete, emptySha).Ok?
    ensures var m := BuildResearchManifest(raw, files, researchChecksum, failureChecksum, maxLineBytes, complete, emptySha).value;
            && m.files == files && m.researchChecksum == researchChecksum && m.failureChecksum == failureChecksum
            && m.requestedStartUs == raw.requestedStartUs && m.requestedEndUs == raw.requestedEndUs && m.maxLineBytes == maxLineBytes
            && m.symbols == raw.symbols && m.intervals == raw.intervals && m.datasetId == raw.datasetId
            && m.sums.linesSeen == Dataset.TotalOf(files, (a: Artifact) => a.linesSeen)
            && m.sums.written == Dataset.TotalOf(files, (a: Artifact) => a.written)
            && m.sums.quarantined == Dataset.TotalOf(files, (a: Artifact) => a.quarantined)
            && m.sums.researchBytes == Dataset.TotalOf(files, (a: Artifact) => a.researchBytes)
            && m.sums.failureBytes == Dataset.TotalOf(files, (a: Artifact) => a.failureBytes)
            && (m.success <==> m.sums.quarantined == 0)
            && CoverageTold(m) && EachKnown(raw, files) && EachRequested(m)
            && (m.sums.researchBytes == 0 ==> researchChecksum == emptySha) && (m.sums.failureBytes == 0 ==> failureChecksum == emptySha)
            && (m.complete <==> complete)
            && (complete <==> NoneMissing(files, raw.files))
  {
    hide BuildResearchManifest, RecordsOf, CheckManifest, Assembled, SumsOf, Coverage, AllChecked, CoverageTold, EachKnown, NoneMissing;
    hide CompletionTruthful, CoverageValid, EarliestStart, LatestEnd, Dataset.TotalOf, NamesOf, ArtifactNames, EachRequested, ListingValid;
    BuiltIs(raw, files, researchChecksum, failureChecksum, maxLineBytes, complete, emptySha);
    var m := Assembled(raw, files, researchChecksum, failureChecksum, maxLineBytes, complete);
    AssembledFields(raw, files, researchChecksum, failureChecksum, maxLineBytes, complete);
    SumsAdd(files);
    CheckedManifest(m, emptySha);
    CoverageExtremes(files, emptySha);
    TellsCoverage(raw, files, researchChecksum, failureChecksum, maxLineBytes, complete);
    Listed(files, raw.files, complete);
  }

  lemma BuiltIs(raw: Dataset.DownloadManifest, files: seq<Artifact>, researchChecksum: Sha, failureChecksum: Sha,
                maxLineBytes: nat, complete: bool, emptySha: Sha)
    requires BuildResearchManifest(raw, files, researchChecksum, failureChecksum, maxLineBytes, complete, emptySha).Ok?
    ensures var m := Assembled(raw, files, researchChecksum, failureChecksum, maxLineBytes, complete);
            && CheckManifest(m, emptySha).Ok?
            && BuildResearchManifest(raw, files, researchChecksum, failureChecksum, maxLineBytes, complete, emptySha) == CheckManifest(m, emptySha)
    ensures EachKnown(raw, files)
  {
    hide RecordsOf, CheckManifest, Assembled;
    forall i | 0 <= i < |files| ensures RawOf(raw.files, files[i]) {
      RecordsOfKnown(raw.files, files[i].rawName);
    }
  }

  /** Every raw file has its artifact. */
  ghost predicate NoneMissing(files: seq<Artifact>, raw: seq<Dataset.FileInfo>) {
    forall k :: 0 <= k < |raw| ==> HasArtifact(files, raw[k].name)
  }

  ghost predicate HasArtifact(files: seq<Artifact>, name: string) { exists i :: 0 <= i < |files| && files[i].rawName == name }

  lemma CheckedManifest(m: ResearchManifest, emptySha: Sha)
    requires CheckManifest(m, emptySha).Ok?
    ensures CheckManifest(m, emptySha).value == m && CompletionTruthful(m.complete, ArtifactNames(m.files), m.expected) && CoverageValid(m)
    ensures EachRequested(m) && m.requestedStartUs < m.requestedEndUs && m.maxLineBytes > 0
    ensures (m.sums.researchBytes == 0 ==> m.researchChecksum == emptySha) && (m.sums.failureBytes == 0 ==> m.failureChecksum == emptySha)
  {
    hide CompletionTruthful, CoverageValid, SumsOf, LexLess;
    if ListingValid(m.files, m.symbols, m.intervals, m.expected) {
      forall i, j | 0 <= i < j < |m.files| ensures LexLess(m.files[i].rawName, m.files[j].rawName) {
        assert LexLess(ArtifactNames(m.files)[i], ArtifactNames(m.files)[j]);
      }
    }
  }

  /** Artifacts in name order, each of a requested symbol and interval, no two of one pair. */
  ghost predicate EachRequested(m: ResearchManifest) {
    && (forall i :: 0 <= i < |m.files| ==> m.files[i].symbol in m.symbols && m.files[i].interval in m.intervals)
    && (forall i, j :: 0 <= i < j < |m.files| ==>
          LexLess(m.files[i].rawName, m.files[j].rawName) && (m.files[i].symbol, m.files[i].interval) != (m.files[j].symbol, m.files[j].interval))
  }

  lemma TellsCoverage(raw: Dataset.DownloadManifest, files: seq<Artifact>, researchChecksum: Sha, failureChecksum: Sha,
                      maxLineBytes: nat, complete: bool)
    requires CoverageValid(Assembled(raw, files, researchChecksum, failureChecksum, maxLineBytes, complete))
    requires Coverage(files).None? <==> forall i :: 0 <= i < |files| ==> files[i].written == 0
    requires Coverage(files).None? <==> SumsOf(files).written == 0
    requires Coverage(files).Some? ==> EarliestStart(Coverage(files).value.0, files) && LatestEnd(Coverage(files).value.1, files)
    ensures CoverageTold(Assembled(raw, files, researchChecksum, failureChecksum, maxLineBytes, complete))
  {
    hide SumsOf, Coverage, NamesOf, EarliestStart, LatestEnd;
  }

  lemma Listed(files: seq<Artifact>, raw: seq<Dataset.FileInfo>, complete: bool)
    requires CompletionTruthful(complete, ArtifactNames(files), NamesOf(raw))
    ensures complete <==> NoneMissing(files, raw)
  {
    var names, expected := ArtifactNames(files), NamesOf(raw);
    if complete {
      forall k | 0 <= k < |raw| ensures HasArtifact(files, raw[k].name) {
        assert expected[k] in SetOf(expected);
        var i :| 0 <= i < |names| && names[i] == expected[k];
        assert files[i].rawName == raw[k].name;
      }
    } else {
      var name :| name in SetOf(expected) && name !in SetOf(names);
      var k :| 0 <= k < |expected| && expected[k] == name;
      assert raw[k].name == name;
      forall i | 0 <= i < |files| ensures files[i].rawName != raw[k].name {
        assert names[i] in SetOf(names);
      }
    }
  }

  /** Without records no coverage; otherwise the extremes over the artifacts with records, within the requested range. */
  ghost predicate CoverageTold(m: ResearchManifest) {
    if forall i :: 0 <= i < |m.files| ==> m.files[i].written == 0 then m.coverageStartUs.None? && m.coverageEndUs.None?
    else
      && m.coverageStartUs.Some? && m.coverageEndUs.Some?
      && m.requestedStartUs <= m.coverageStartUs.value < m.coverageEndUs.value <= m.requestedEndUs
      && (exists start :: m.coverageStartUs.value == 1000 * start && EarliestStart(start, m.files))
      && (exists end :: m.coverageEndUs.value == 1000 * end && LatestEnd(end, m.files))
  }

  ghost predicate EachKnown(raw: Dataset.DownloadManifest, files: seq<Artifact>) {
    forall i :: 0 <= i < |files| ==> RawOf(raw.files, files[i])
  }

  ghost predicate RawOf(raw: seq<Dataset.FileInfo>, a: Artifact) {
    exists k :: 0 <= k < |raw| && raw[k].name == a.rawName && raw[k].records == a.linesSeen
  }

  /** So it always succeeds when the requested start is a whole millisecond. */
  lemma AlignedStartBuilds(raw: Dataset.DownloadManifest, files: seq<Artifact>, emptySha: Sha)
    requires raw.requestedStartUs % 1000 == 0
    requires forall i :: 0 <= i < |files| ==> Planned(raw, files[i], emptySha)
    ensures StartHonoured(raw, files)
  {
    hide CheckArtifact, RecordsOf;
    forall i | 0 <= i < |files| && files[i].written > 0
      ensures files[i].coverageStart.Some? && raw.requestedStartUs <= 1000 * files[i].coverageStart.value
    {
      assert Planned(raw, files[i], emptySha);
      CheckedCoverage(files[i], emptySha);
    }
  }
}
