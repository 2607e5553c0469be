/** The records that flow through the pipeline drawing -> coded rows -> tree,
    and the diagnostics appended to the shared info list on the way. */
module Bom {
  import opened Text

  /** One bill-of-materials row: the eight attribute texts of a table-row
      block (seq, code, spec, count, material, unit_mass, total_mass,
      remark), the rounded insertion point of the block, and the work-ticket
      code once one has been assigned. A coordinate the row dict does not
      carry, or carries as '', is None; a wtcode is None only when the dict
      has no "wtcode" key, and a wtcode of '' is Some(""). */
  datatype Row = Row(
    seqNo: string,
    code: string,
    spec: string,
    count: string,
    material: string,
    unitMass: string,
    totalMass: string,
    remark: string,
    x: Option<int>,
    y: Option<int>,
    wtcode: Option<string>)

  /** The Python exception that ends a run of the pipeline. */
  datatype Error = IndexError | KeyError | UnboundLocalError

  datatype Result<T> = Ok(value: T) | Err(error: Error)

  /** A diagnostic line of res["info"]: one constructor per message the
      source formats, carrying the values the message shows. */
  datatype Msg =
    | PartsSummary(declared: int, dedicated: nat, purchased: nat)
    | PurchasedInDedicated(code: string, spec: string)
    | DuplicateCode(code: string, spec: string, totalMass: string,
                    firstCode: string, firstSpec: string, firstTotalMass: string)
    | DedicatedRemaining(count: nat)
    | ZeroCount(row: Row)
    | ZeroUnitMass(row: Row, parsedCount: int, parsedTotalMass: real)
    | ZeroTotalMass(row: Row, parsedCount: int, parsedUnitMass: real)
    | PartNumberMismatch(stored: string, found: string)
    | UnexpectedAttributeCount(attributes: seq<string>)

  /** The "purchased items summary" row that getwtcode puts in front of the
      purchased parts. */
  const SummaryRow: Row :=
    Row("", "", "外购件汇总", "1", "", "", "", "", None, None, None)
}
