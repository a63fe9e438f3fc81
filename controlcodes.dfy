/** The three DPL control-code dialects (device_controller/devices/printers/dpl/
    control_codes.py): the bytes that stand for STX, SOH, CR, ESC, FNC1 and GS. */
module ControlCodes {
  import opened Common

  /** One dialect table; the fields are in the table's key order, which callers
      rely on when they unpack its values positionally. */
  datatype Codes = Codes(stx: Byte, soh: Byte, cr: Byte, esc: Byte, fnc1: seq<Byte>, gs: Byte)

  const Standard: Codes := Codes(0x02, 0x01, 0x0D, 0x1B, [0x7E, 0x31], 0x1D)
  const Alternate: Codes := Codes(0x7E, 0x5E, 0x0D, 0x1B, [0x7E, 0x31], 0x1D)
  const Alternate2: Codes := Codes(0x7E, 0x5E, 0x7C, 0x1B, [0x7E, 0x31], 0x1D)

  /** `cc_list`, in the order `get_control_codes` indexes it. */
  const Tables: seq<Codes> := [Standard, Alternate, Alternate2]

  /** The dialect the callers use when they name none. */
  const DefaultDialect: int := 0

  /** `get_control_codes(cc_id)`: Python list indexing, so -1..-3 count from the end;
      None stands for the IndexError any other id raises. */
  function GetControlCodes(id: int): (r: Option<Codes>)
    ensures r.Some? <==> -3 <= id <= 2
    ensures r.Some? ==> r.value in Tables
  {
    if 0 <= id < |Tables| then Some(Tables[id])
    else if -|Tables| <= id < 0 then Some(Tables[id + |Tables|])
    else None
  }

  /** Every value of a table is a 7-bit byte. */
  predicate SevenBit(c: Codes)
  {
    c.stx < 0x80 && c.soh < 0x80 && c.cr < 0x80 && c.esc < 0x80 && c.gs < 0x80
    && forall i :: 0 <= i < |c.fnc1| ==> c.fnc1[i] < 0x80
  }

  /** Ids 0, 1 and 2 give the standard, alternate and alternate-2 tables, with the
      bytes each one documents; the default id gives the standard table. */
  lemma DialectTables()
    ensures GetControlCodes(0) == Some(Codes(0x02, 0x01, 0x0D, 0x1B, [0x7E, 0x31], 0x1D))
    ensures GetControlCodes(1) == Some(Codes(0x7E, 0x5E, 0x0D, 0x1B, [0x7E, 0x31], 0x1D))
    ensures GetControlCodes(2) == Some(Codes(0x7E, 0x5E, 0x7C, 0x1B, [0x7E, 0x31], 0x1D))
    ensures GetControlCodes(DefaultDialect) == GetControlCodes(0)
  {
  }

  /** Negative ids wrap around as Python's indexing does. */
  lemma NegativeIds(id: int)
    requires -3 <= id <= -1
    ensures GetControlCodes(id) == GetControlCodes(id + 3)
  {
  }

  /** ESC, FNC1 and GS are the same in every dialect, and every value is 7-bit. */
  lemma SharedCodes(id: int)
    requires GetControlCodes(id).Some?
    ensures var c := GetControlCodes(id).value;
      c.esc == 0x1B && c.fnc1 == [0x7E, 0x31] && c.gs == 0x1D && SevenBit(c)
  {
  }
}
