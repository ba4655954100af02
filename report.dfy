/**
 * The `generate_report` activity: the reduce step after the fan-in.  It keeps
 * the four analyses as they are and derives the file name and a summary from
 * them.  The report id (`uuid.uuid4()`) and the timestamp
 * (`datetime.utcnow().isoformat()`) are inputs.
 */
module Report {
  import opened Common
  import opened Strings
  import Colors
  import Objects

  /** The key of the `analyze_text` result that the summary reads; it may be missing. */
  datatype TextAnalysis = TextAnalysis(hasText: Option<bool>)

  /** The keys of the `analyze_metadata` result that the summary reads; each may be missing. */
  datatype MetadataAnalysis = MetadataAnalysis(width: Option<nat>, height: Option<nat>, format: Option<string>)

  /**
   * `report_input` as the orchestrator builds it.  The orchestrator's
   * `ReportRequest` is the same dictionary with the four results left opaque;
   * here they are typed, because the summary reads their fields.
   */
  datatype ReportData = ReportData(
    blobName: string,
    colors: Colors.ColorAnalysis,
    objects: Objects.ObjectAnalysis,
    text: TextAnalysis,
    metadata: MetadataAnalysis)

  /** `report["analyses"]`: the four results of `report_input`, without the blob name. */
  datatype Analyses = Analyses(
    colors: Colors.ColorAnalysis,
    objects: Objects.ObjectAnalysis,
    text: TextAnalysis,
    metadata: MetadataAnalysis)

  datatype Summary = Summary(
    imageSize: string,
    format: string,
    dominantColor: string,
    objectsDetected: nat,
    hasText: bool,
    isGrayscale: bool)

  datatype Report = Report(
    id: string,
    fileName: string,
    blobPath: string,
    analyzedAt: string,
    analyses: Analyses,
    summary: Summary)

  // ---------------------------------------------------------------------------
  // The file name
  // ---------------------------------------------------------------------------

  /** `blob_name.split("/")[-1] if "/" in blob_name else blob_name`. */
  function FileName(blobName: string): string {
    if '/' in blobName then
      var parts := Split(blobName, '/');
      parts[|parts| - 1]
    else blobName
  }

  /**
   * The file name holds no `/`; it is the whole blob name when that has no
   * `/`, and otherwise exactly what follows the last `/`.
   */
  lemma FileNameIsLastSegment(blobName: string)
    ensures '/' !in FileName(blobName)
    ensures '/' !in blobName ==> FileName(blobName) == blobName
    ensures '/' in blobName ==>
      var k := |blobName| - |FileName(blobName)|;
      k >= 1 && blobName[k - 1] == '/' && blobName[k..] == FileName(blobName)
  {
    var parts := Split(blobName, '/');
    var n := |parts|;
    JoinSplit(blobName, '/');
    assert '/' !in parts[n - 1];
    if '/' in blobName {
      var dir := Join(parts[..n - 1], '/');
      assert blobName == dir + ['/'] + parts[n - 1];
      assert blobName[|dir| + 1..] == parts[n - 1];
    }
  }

  /** The test for `/` changes nothing: the name is always the last piece of the split. */
  lemma FileNameIsLastPiece(blobName: string)
    ensures var parts := Split(blobName, '/'); FileName(blobName) == parts[|parts| - 1]
  {
    if '/' !in blobName {
      SplitWithout(blobName, '/');
    }
  }

  // ---------------------------------------------------------------------------
  // The summary
  // ---------------------------------------------------------------------------

  /** `f"{width}x{height}"`. */
  function ImageSize(width: nat, height: nat): string {
    NatToString(width) + "x" + NatToString(height)
  }

  /** Reads back a `"WxH"` string. */
  function ParseImageSize(s: string): Option<(nat, nat)> {
    match IndexOf(s, 'x')
    case None => None
    case Some(i) =>
      match (ParseNat(s[..i]), ParseNat(s[i + 1..]))
      case (Some(w), Some(h)) => Some((w, h))
      case _ => None
  }

  lemma ImageSizeRoundTrip(width: nat, height: nat)
    ensures ParseImageSize(ImageSize(width, height)) == Some((width, height))
  {
    var w, h := NatToString(width), NatToString(height);
    var s := ImageSize(width, height);
    NatToStringHasNo(width, 'x');
    assert s[|w|] == 'x';
    var i := IndexOf(s, 'x');
    assert i.Some?;
    assert i.value == |w|;
    assert s[..|w|] == w && s[|w| + 1..] == h;
    ParseNatToString(width);
    ParseNatToString(height);
  }

  /** The first dominant colour's hex string, or "N/A" when there is none. */
  function DominantColor(colors: Colors.ColorAnalysis): string {
    if |colors.dominantColors| > 0 then colors.dominantColors[0].hex else "N/A"
  }

  function SummaryOf(data: ReportData): Summary {
    Summary(
      ImageSize(data.metadata.width.GetOr(0), data.metadata.height.GetOr(0)),
      data.metadata.format.GetOr("Unknown"),
      DominantColor(data.colors),
      data.objects.objectCount,
      data.text.hasText.GetOr(false),
      data.colors.isGrayscale)
  }

  /** The report for `data`, given the generated id and the current time. */
  function GenerateReport(data: ReportData, id: string, analyzedAt: string): (r: Report)
    ensures r.id == id && r.analyzedAt == analyzedAt && r.blobPath == data.blobName
    ensures r.fileName == FileName(data.blobName) && '/' !in r.fileName
    ensures r.analyses == Analyses(data.colors, data.objects, data.text, data.metadata)
    ensures r.summary.imageSize == ImageSize(data.metadata.width.GetOr(0), data.metadata.height.GetOr(0))
    ensures ParseImageSize(r.summary.imageSize)
         == Some((data.metadata.width.GetOr(0), data.metadata.height.GetOr(0)))
    ensures r.summary.format == data.metadata.format.GetOr("Unknown")
    ensures r.summary.dominantColor == DominantColor(data.colors)
    ensures r.summary.objectsDetected == data.objects.objectCount
    ensures r.summary.hasText == data.text.hasText.GetOr(false)
    ensures r.summary.isGrayscale == data.colors.isGrayscale
  {
    FileNameIsLastSegment(data.blobName);
    ImageSizeRoundTrip(data.metadata.width.GetOr(0), data.metadata.height.GetOr(0));
    Report(
      id,
      FileName(data.blobName),
      data.blobName,
      analyzedAt,
      Analyses(data.colors, data.objects, data.text, data.metadata),
      SummaryOf(data))
  }

  /**
   * When the colour analysis succeeded, the summary's dominant colour is the
   * hex string of a bucket that no other bucket outnumbers; when it failed,
   * it is "N/A".
   */
  lemma DominantColorIsMostFrequent(decoded: Result<seq<Colors.Pixel>>)
    ensures var colors := Colors.ColorAnalysisOf(decoded);
      && (DominantColor(colors) == "N/A" <==> colors.error.Some?)
      && (colors.error.None? ==>
            var d := Colors.Histogram(decoded.value);
            var b := Colors.ParseHexColor(DominantColor(colors));
            && b.Some? && b.value in d.counts
            && forall k :: k in d.counts ==> d.counts[k] <= d.counts[b.value])
  {
    var colors := Colors.ColorAnalysisOf(decoded);
    if colors.error.None? {
      var d := Colors.Histogram(decoded.value);
      var top := Colors.TopBuckets(d);
      assert && |top| >= 1 && top[0].bucket in d.counts && d.counts[top[0].bucket] == top[0].count
             && forall k :: k in d.counts ==> d.counts[k] <= top[0].count by {
        Colors.TopBucketIsMostFrequent(decoded.value);
      }
      assert DominantColor(colors) == Colors.HexColor(top[0].bucket);
      Colors.HexColorRoundTrip(top[0].bucket);
    }
  }
}
