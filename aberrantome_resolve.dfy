// Differential categories of the aberrant-transcription plots: every row
// starts "Not significant" and the up and down rules overwrite the
// category column in turn, the later rules winning.
module AberrantomeResolve {

  datatype Category = NotSignificant | SignificantUp | StrongUp | SignificantDown | StrongDown

  datatype Row = Row(scoreTrt: real, scoreCtrl: real, padj: real, log2fc: real)

  function Delta(r: Row): real { r.scoreTrt - r.scoreCtrl }

  predicate SigUp(r: Row, padj: real, log2fc: real) { r.padj <= padj && r.log2fc >= log2fc }

  predicate SigDown(r: Row, padj: real, log2fc: real) { r.padj <= padj && r.log2fc <= -log2fc }

  /** The category a row ends with, written as a priority list: the last rule that fires wins. */
  function Classify(r: Row, padj: real, log2fc: real, delta: real): Category
  {
    if SigDown(r, padj, log2fc) && Delta(r) <= -delta then StrongDown
    else if SigDown(r, padj, log2fc) then SignificantDown
    else if SigUp(r, padj, log2fc) && Delta(r) >= delta then StrongUp
    else if SigUp(r, padj, log2fc) then SignificantUp
    else NotSignificant
  }

  /** `df.loc[mask, 'category'] = value`. */
  method AssignWhere(column: array<Category>, mask: seq<bool>, value: Category)
    requires |mask| == column.Length
    modifies column
    ensures forall i :: 0 <= i < column.Length ==> column[i] == (if mask[i] then value else old(column[i]))
  {
    var i := 0;
    while i < column.Length
      invariant 0 <= i <= column.Length
      invariant forall j :: 0 <= j < i ==> column[j] == (if mask[j] then value else old(column[j]))
      invariant forall j :: i <= j < column.Length ==> column[j] == old(column[j])
    {
      if mask[i] {
        column[i] := value;
      }
      i := i + 1;
    }
  }

  /**
   * `resolve`: fills the category column with "Not significant", then
   * overwrites it with the significant-up, strong-up, significant-down and
   * strong-down masks in that order.
   */
  method Resolve(rows: seq<Row>, padj: real, log2fc: real, delta: real) returns (category: seq<Category>)
    ensures |category| == |rows|
    ensures forall i :: 0 <= i < |rows| ==> category[i] == Classify(rows[i], padj, log2fc, delta)
  {
    var n := |rows|;
    var column := new Category[n](_ => NotSignificant);
    var sigUp := seq(n, i requires 0 <= i < n => SigUp(rows[i], padj, log2fc));
    AssignWhere(column, sigUp, SignificantUp);
    var strongUp := seq(n, i requires 0 <= i < n => sigUp[i] && Delta(rows[i]) >= delta);
    AssignWhere(column, strongUp, StrongUp);
    var sigDown := seq(n, i requires 0 <= i < n => SigDown(rows[i], padj, log2fc));
    AssignWhere(column, sigDown, SignificantDown);
    var strongDown := seq(n, i requires 0 <= i < n => sigDown[i] && Delta(rows[i]) <= -delta);
    AssignWhere(column, strongDown, StrongDown);
    category := column[..];
  }

  /** "Strong up" is exactly significant-up with a large enough delta and no down rule firing. */
  lemma StrongUpIff(r: Row, padj: real, log2fc: real, delta: real)
    ensures Classify(r, padj, log2fc, delta) == StrongUp <==>
      SigUp(r, padj, log2fc) && Delta(r) >= delta && !SigDown(r, padj, log2fc)
  {
  }

  /** "Significant up" is significant-up with too small a delta and no down rule firing. */
  lemma SignificantUpIff(r: Row, padj: real, log2fc: real, delta: real)
    ensures Classify(r, padj, log2fc, delta) == SignificantUp <==>
      SigUp(r, padj, log2fc) && Delta(r) < delta && !SigDown(r, padj, log2fc)
  {
  }

  /** The down categories are exactly the down rules, whatever the up rules say. */
  lemma DownIff(r: Row, padj: real, log2fc: real, delta: real)
    ensures Classify(r, padj, log2fc, delta) == StrongDown <==> SigDown(r, padj, log2fc) && Delta(r) <= -delta
    ensures Classify(r, padj, log2fc, delta) == SignificantDown <==> SigDown(r, padj, log2fc) && Delta(r) > -delta
  {
  }

  /** A row stays "Not significant" iff no significance rule fires. */
  lemma NotSignificantIff(r: Row, padj: real, log2fc: real, delta: real)
    ensures Classify(r, padj, log2fc, delta) == NotSignificant <==> !SigUp(r, padj, log2fc) && !SigDown(r, padj, log2fc)
  {
  }

  /** With a positive fold-change threshold the up and down rules never both fire. */
  lemma UpDownExclusive(r: Row, padj: real, log2fc: real)
    requires log2fc > 0.0
    ensures !(SigUp(r, padj, log2fc) && SigDown(r, padj, log2fc))
  {
  }
}
