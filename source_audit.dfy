/**
 * The source audit under each answer: one citation per retrieved node, in
 * retrieval order, with the file name, page and score shown and a bounded
 * preview of the passage.
 */
module SourceAudit {
  import opened Wrappers
  import opened PyStrings
  import opened Sources

  /** Shown when a node has no file name. */
  const DefaultFileName := "Dokuments"
  /** Shown for a missing page number or score. */
  const NotAvailable := "N/A"
  /** Characters of the passage kept in the preview. */
  const PreviewLength := 600
  const Ellipsis := "..."

  /** The score column: absent, or the value (shown with 3 decimals). */
  datatype ScoreText = NoScore | Score(value: real)

  /** One line of the audit: "Avots n", file, page, score and preview. */
  datatype Citation = Citation(number: nat, fileName: string, pageNo: string, score: ScoreText, preview: string)

  /**
   * The citation for the node at (0-based) position `i`: missing metadata
   * takes its default, a missing or zero score is not shown, and the
   * preview is the first 600 characters followed by "...".
   */
  function Cite(i: nat, node: SourceNode): (c: Citation)
    ensures c.number == i + 1
    ensures FileNameKey in node.metadata ==> c.fileName == node.metadata[FileNameKey]
    ensures FileNameKey !in node.metadata ==> c.fileName == DefaultFileName
    ensures PageNoKey in node.metadata ==> c.pageNo == node.metadata[PageNoKey]
    ensures PageNoKey !in node.metadata ==> c.pageNo == NotAvailable
    ensures c.score == NoScore <==> node.score == None || node.score == Some(0.0)
    ensures c.score.Score? ==> node.score == Some(c.score.value)
    ensures |Ellipsis| <= |c.preview| <= PreviewLength + |Ellipsis|
    ensures c.preview[..|c.preview| - |Ellipsis|] <= node.content
    ensures c.preview[|c.preview| - |Ellipsis|..] == Ellipsis
    ensures |c.preview| == (if |node.content| < PreviewLength then |node.content| else PreviewLength) + |Ellipsis|
  {
    var score := match node.score
      case Some(v) => if v != 0.0 then Score(v) else NoScore
      case None => NoScore;
    Citation(i + 1,
             MetaGet(node.metadata, FileNameKey, DefaultFileName),
             MetaGet(node.metadata, PageNoKey, NotAvailable),
             score,
             Prefix(node.content, PreviewLength) + Ellipsis)
  }

  /** The audit loop: one citation per node, numbered from 1, in order. */
  method AuditSources(nodes: seq<SourceNode>) returns (citations: seq<Citation>)
    ensures |citations| == |nodes|
    ensures forall k :: 0 <= k < |nodes| ==> citations[k] == Cite(k, nodes[k])
  {
    citations := [];
    for i := 0 to |nodes|
      invariant |citations| == i
      invariant forall k :: 0 <= k < i ==> citations[k] == Cite(k, nodes[k])
    {
      citations := citations + [Cite(i, nodes[i])];
    }
  }
}
