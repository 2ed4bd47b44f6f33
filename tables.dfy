/** The two raw tables the core reads, as sequences of records, and the
    resolution of the coverage-depth column's two spellings. */
module Tables {

  /** One row of the per-position coverage table. */
  datatype CoverageRow = CoverageRow(sample: string, referenceName: string, position: nat, depth: nat)

  /** The coverage table: its column names (only the depth column's spelling
      varies between pipeline versions) and its rows in table order. The depth
      of a row is kept in `depth` whichever spelling the column has. */
  datatype CoverageTable = CoverageTable(columns: seq<string>, rows: seq<CoverageRow>)

  /** One row of the read-classification table. */
  datatype ReadRow = ReadRow(sample: string, stage: int, record: string, readCount: nat)

  /** The depth column's name: `Coverage_Depth` when the table has it, else
      `Coverage Depth` (whether or not that one exists). */
  function CoverageHeader(columns: seq<string>): (h: string)
    ensures h == "Coverage_Depth" || h == "Coverage Depth"
    ensures h == "Coverage_Depth" <==> "Coverage_Depth" in columns
    ensures h in columns <==> "Coverage_Depth" in columns || "Coverage Depth" in columns
  {
    if "Coverage_Depth" in columns then "Coverage_Depth" else "Coverage Depth"
  }

  /** The Sample column. */
  function Samples(rows: seq<CoverageRow>): (r: seq<string>)
    ensures |r| == |rows| && forall i :: 0 <= i < |rows| ==> r[i] == rows[i].sample
  {
    seq(|rows|, i requires 0 <= i < |rows| => rows[i].sample)
  }

  /** The Reference_Name column. */
  function ReferenceNames(rows: seq<CoverageRow>): (r: seq<string>)
    ensures |r| == |rows| && forall i :: 0 <= i < |rows| ==> r[i] == rows[i].referenceName
  {
    seq(|rows|, i requires 0 <= i < |rows| => rows[i].referenceName)
  }

  /** The Sample column of the read table. It mirrors `Samples` on purpose: the
      two tables are different record types. */
  function ReadSamples(rows: seq<ReadRow>): (r: seq<string>)
    ensures |r| == |rows| && forall i :: 0 <= i < |rows| ==> r[i] == rows[i].sample
  {
    seq(|rows|, i requires 0 <= i < |rows| => rows[i].sample)
  }
}
