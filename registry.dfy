/** The driver registries: the backend's scale and printer controller tables
    (backend/device_controller/controllers.py) and the device controller's scale
    driver table (device_controller/devices/scales/drivers.py), each a dictionary
    from a driver name to the service object that speaks that protocol. */
module Registry {
  import opened Common

  /** The service objects the tables hold. */
  datatype Controller = TenzoM | MtSics | DigiDi160 | DplPrinter

  /** `scales_controllers` (and the `drivers` table, which has the same entries). */
  const ScalesControllers: map<string, Controller> :=
    map["tenzo_m" := TenzoM, "mt_sics" := MtSics, "digi_di160" := DigiDi160]

  /** `printer_controllers`. */
  const PrinterControllers: map<string, Controller> := map["dpl" := DplPrinter]

  /** `dict.get(name, None)`. */
  function Get(table: map<string, Controller>, name: string): (r: Option<Controller>)
    ensures r.Some? <==> name in table
    ensures r.Some? ==> r.value == table[name]
  {
    if name in table then Some(table[name]) else None
  }

  /** `get_printer_controller`. */
  function GetPrinterController(driver: string): Option<Controller>
  {
    Get(PrinterControllers, driver)
  }

  /** `get_scales_controller`, and `get_driver` of the device controller. */
  function GetScalesController(driver: string): Option<Controller>
  {
    Get(ScalesControllers, driver)
  }

  predicate IsScale(c: Controller) { c != DplPrinter }

  // ---------------------------------------------------------------------
  // Properties.

  /** The scale table has exactly the three scale protocols, the printer table
      exactly DPL. */
  lemma TableKeys()
    ensures ScalesControllers.Keys == {"tenzo_m", "mt_sics", "digi_di160"}
    ensures PrinterControllers.Keys == {"dpl"}
  {
  }

  /** A printer lookup finds only the DPL service, and only under its own name. */
  lemma PrinterLookup(driver: string)
    ensures GetPrinterController(driver).Some? <==> driver == "dpl"
    ensures GetPrinterController(driver).Some? ==> GetPrinterController(driver).value == DplPrinter
  {
  }

  /** A scale lookup finds a scale service exactly for the three scale names. */
  lemma ScalesLookup(driver: string)
    ensures GetScalesController(driver).Some? <==> driver in {"tenzo_m", "mt_sics", "digi_di160"}
    ensures GetScalesController(driver).Some? ==> IsScale(GetScalesController(driver).value)
  {
  }

  /** The tables are disjoint: no name finds both a printer and a scale. */
  lemma TablesDisjoint(driver: string)
    ensures GetPrinterController(driver).None? || GetScalesController(driver).None?
  {
    PrinterLookup(driver);
  }
}
