/** The single-file job analysis of MA_Analysis.py. A maintenance job
    export is checked for its required columns; event-driven jobs
    ("0 EVENT") are dropped; every remaining job is flagged as triggered or
    not by its Last Done Date; and the overdue, duplicate, triggered,
    non-triggered and critical subsets are selected. Each Equipment Code is
    placed in the ship-system taxonomy by its first one and two characters,
    and jobs are counted per labelled series. Every step is a whole-column
    filter or map, so the model is a set of functions over a sequence of
    jobs. */
module MaAnalysis {
  import opened Seqs
  import opened Text

  /** The columns an export must have (`required_columns`). */
  const RequiredColumns: seq<string> := [
    "Equipment Code", "Equipment Name", "Job Title", "Job Type", "Maintenance Type",
    "Primary Frequency", "Last Done Date", "Next Due Date", "Secondary Frequency",
    "Last Done Hrs.", "Next Due Hrs.", "Discipline", "Present Reading",
    "Rhrs/Days Since the Last Entry", "Remaining RHrs per Days", "Safety Level",
    "Sub Group", "Critical to Safety", "Risk Assessment Required", "Forms Attached",
    "Procedures", "P", "Remarks", "Job Assigned To", "Class Reference",
    "Maintenance Cause", "Job Priority"
  ]

  const ZeroEvent: string := "0 EVENT"
  const Critical: string := "CRITICAL"
  const Yes: string := "YES"

  /** `all(col in columns for col in required)`. */
  function HasAllColumns(required: seq<string>, columns: seq<string>): (ok: bool)
    ensures ok <==> forall i :: 0 <= i < |required| ==> required[i] in columns
  {
    if required == [] then true
    else required[0] in columns && HasAllColumns(required[1..], columns)
  }

  /** `check_columns(df)`. */
  function CheckColumns(columns: seq<string>): (ok: bool)
    ensures ok <==> forall c :: c in RequiredColumns ==> c in columns
  {
    HasAllColumns(RequiredColumns, columns)
  }

  /** A spreadsheet date-time: a day number and the second within that day.
      `.dt.date` keeps only the day. */
  datatype Timestamp = Timestamp(day: int, secondOfDay: nat)

  /** A date cell as read from the sheet: empty, a date-time, or text that
      no date parser accepts. */
  datatype DateCell = Blank | At(t: Timestamp) | Unreadable(text: string)

  /** One row of the export, restricted to the columns the analysis reads;
      `None` is an empty cell. */
  datatype Job = Job(
    code: Option<string>,
    name: Option<string>,
    title: Option<string>,
    frequency: Option<string>,
    lastDone: DateCell,
    nextDue: DateCell,
    safetyLevel: Option<string>,
    criticalToSafety: Option<string>)

  datatype Sheet = Sheet(columns: seq<string>, jobs: seq<Job>)

  /** A job after the derived column and the date conversions: `Triggered`
      first, both dates parsed (`None` is `NaT`). */
  datatype Record = Record(
    triggered: string,
    code: Option<string>,
    name: Option<string>,
    title: Option<string>,
    frequency: Option<string>,
    lastDone: Option<Timestamp>,
    nextDue: Option<Timestamp>,
    safetyLevel: Option<string>,
    criticalToSafety: Option<string>)

  /** A row of `treelist`: the job's identity with its taxonomy keys and
      labels. */
  datatype TreeRow = TreeRow(
    triggered: string,
    code: Option<string>,
    series: Option<string>,
    subSeries: Option<string>,
    name: Option<string>,
    title: Option<string>,
    frequency: Option<string>,
    seriesName: Option<string>,
    subSeriesName: Option<string>)

  /** A row of the series analysis: its row number, the group key and the
      number of jobs in the group. */
  datatype SeriesGroup = SeriesGroup(number: nat, series: string, seriesName: string, jobCount: nat)

  datatype Analysis = Analysis(
    jobsFound: nat,
    records: seq<Record>,
    tree: seq<TreeRow>,
    overdue: seq<Record>,
    duplicates: seq<Record>,
    duplicateCount: nat,
    triggered: seq<Record>,
    triggeredCount: nat,
    nonTriggered: seq<Record>,
    nonTriggeredCount: nat,
    criticalEquipment: seq<Record>,
    criticalEquipmentNames: seq<Option<string>>,
    criticalJobRows: seq<Record>,
    criticalJobs: seq<(Option<string>, Option<string>)>,
    seriesGroups: seq<SeriesGroup>)

  /** What one upload leads to: the missing-columns message, the exception
      `pd.to_datetime` raises on an unreadable Last Done Date, or the
      analysis. */
  datatype Outcome = MissingColumns | BadLastDoneDate | Done(analysis: Analysis)

  // Jobs and records

  predicate IsActive(j: Job)
  {
    j.frequency != Some(ZeroEvent)
  }

  /** `df[df['Primary Frequency'] != '0 EVENT']`; an empty frequency is kept. */
  function ActiveJobs(jobs: seq<Job>): seq<Job>
  {
    Filter(jobs, IsActive)
  }

  /** The `Triggered` flag, from the raw Last Done Date cell. */
  function TriggeredFlag(c: DateCell): string
  {
    if c.Blank? then "N" else "Y"
  }

  /** `pd.to_datetime` without `errors='coerce'`: defined only when the cell
      is readable. */
  function ParseDate(c: DateCell): Option<Timestamp>
    requires !c.Unreadable?
  {
    if c.At? then Some(c.t) else None
  }

  /** `pd.to_datetime(..., errors='coerce')`: unreadable text becomes `NaT`. */
  function CoerceDate(c: DateCell): Option<Timestamp>
  {
    if c.At? then Some(c.t) else None
  }

  function ToRecord(j: Job): Record
    requires !j.lastDone.Unreadable?
  {
    Record(TriggeredFlag(j.lastDone), j.code, j.name, j.title, j.frequency,
           ParseDate(j.lastDone), CoerceDate(j.nextDue), j.safetyLevel, j.criticalToSafety)
  }

  function ToRecords(jobs: seq<Job>): seq<Record>
    requires forall j :: j in jobs ==> !j.lastDone.Unreadable?
  {
    seq(|jobs|, i requires 0 <= i < |jobs| => ToRecord(jobs[i]))
  }

  // Subsets

  predicate IsOverdue(r: Record, today: int)
  {
    r.nextDue.Some? && r.nextDue.value.day < today
  }

  /** `df[df['Next Due Date'].dt.date < today]`: `NaT` never compares less. */
  function Overdue(records: seq<Record>, today: int): (r: seq<Record>)
    ensures forall x :: x in r ==> x.nextDue.Some? && x.nextDue.value.day < today
    ensures forall x :: x in records && IsOverdue(x, today) ==> multiset(r)[x] == multiset(records)[x]
    ensures IsSubsequence(r, records)
  {
    Filter(records, x => IsOverdue(x, today))
  }

  function JobKey(r: Record): (Option<string>, Option<string>, Option<string>)
  {
    (r.code, r.name, r.title)
  }

  /** `df[df.duplicated(subset=[code, name, title], keep=False)]`. */
  function DuplicateJobs(records: seq<Record>): seq<Record>
  {
    Duplicated(records, JobKey)
  }

  predicate IsTriggered(r: Record)
  {
    r.triggered == "Y"
  }

  predicate IsNotTriggered(r: Record)
  {
    r.triggered == "N"
  }

  function TriggeredJobs(records: seq<Record>): seq<Record>
  {
    Filter(records, IsTriggered)
  }

  function NonTriggeredJobs(records: seq<Record>): seq<Record>
  {
    Filter(records, IsNotTriggered)
  }

  predicate IsCriticalEquipment(r: Record)
  {
    r.safetyLevel == Some(Critical)
  }

  predicate IsCriticalJob(r: Record)
  {
    r.safetyLevel == Some(Critical) && r.criticalToSafety == Some(Yes)
  }

  function CriticalEquipment(records: seq<Record>): seq<Record>
  {
    Filter(records, IsCriticalEquipment)
  }

  function EquipmentName(r: Record): Option<string>
  {
    r.name
  }

  /** `critical_equipment_df['Equipment Name'].unique()`: an empty name is
      one of the values. */
  function CriticalEquipmentNames(records: seq<Record>): seq<Option<string>>
  {
    FirstSeen(KeyColumn(CriticalEquipment(records), EquipmentName))
  }

  function CriticalJobRows(records: seq<Record>): seq<Record>
  {
    Filter(records, IsCriticalJob)
  }

  /** The (Equipment Name, Job Title) columns of the critical jobs. */
  function CriticalJobs(records: seq<Record>): seq<(Option<string>, Option<string>)>
  {
    KeyColumn(CriticalJobRows(records), (r: Record) => (r.name, r.title))
  }

  // Taxonomy

  /** `series_tree.get(key)`: the constant taxonomy table, keyed by the
      first one, two or three characters of an Equipment Code. */
  function SeriesTree(key: string): Option<string>
  {
    match key
    case "1" => Some("SHIP GENERAL")
    case "2" => Some("HULL")
    case "3" => Some("EQUIPMENT FOR CARGO")
    case "4" => Some("SHIP EQUIPMENT")
    case "5" => Some("EQUIPMENT FOR CREW AND PASSENGERS")
    case "6" => Some("MAIN MACHINERY")
    case "7" => Some("SYSTEMS FOR MACHINERY MAIN COMPONENTS")
    case "8" => Some("SHIP COMMON SYSTEMS")
    case "9" => Some("VARIOUS ANALYSIS")
    case "21" => Some("HULL AFT")
    case "23" => Some("TANKS SPACES AND STRUCTURES")
    case "24" => Some("SHELL PLATES TRUNKS ETC")
    case "25" => Some("DECK HOUSES AND SUPERSTRUCTURES")
    case "26" => Some("HULL OUTFITTING")
    case "27" => Some("MATERIAL PROTECTION EXTERNAL")
    case "28" => Some("CARGO AREA")
    case "30" => Some("HATCHES PORTS")
    case "31" => Some("EQUIPMENT FOR CARGO IN HOLDS/ON DECK")
    case "32" => Some("SPECIAL CARGO HANDLING EQUIPMENT")
    case "33" => Some("DECK CRANES FOR CARGO")
    case "35" => Some("LOADING/DISCHARGING SYSTEMS FOR LIQUID CARGO")
    case "36" => Some("FREEZING REFRIGERATING & HEATING SYSTEMS FOR CARGO")
    case "37" => Some("GAS/VENTILATION SYSTEMS FOR CARGO HOLDS/TANKS")
    case "38" => Some("AUXILIARY SYSTEMS & EQUIPMENT FOR CARGO")
    case "39" => Some("OIL DISCHARGE MONITORING")
    case "40" => Some("MANOEUVRING MACHINERY & EQUIPMENT")
    case "41" => Some("NAVIGATION & SEARCHING EQUIPMENT")
    case "42" => Some("COMMUNICATION EQUIPMENTS")
    case "43" => Some("ANCHORING MOORING & TOWING EQUIPMENT")
    case "44" => Some("REP./MAINT./CLEAN. EQUIP. WORKSHOP/STORE OUTFIT NAME PLATES")
    case "45" => Some("LIFTING & TRANSPORT EQUIPMENT FOR MACHINERY COMPONENTS")
    case "48" => Some("SPECIAL EQUIPMENT")
    case "50" => Some("LIFESAVING PROTECTION & MEDICAL EQUIPMENT")
    case "51" => Some("INSULATION PANELS BULKHEADS DOORS SIDESCUTTLES SKYLIGHTS")
    case "54" => Some("FURNITURE INVENTORY ENTERTAINMENT EQUIPMENT")
    case "55" => Some("GALLEY/PANTRY EQUIP. PROVISION PLANTS LAUNDRY/IRONING EQU.")
    case "56" => Some("TRANSPORT EQUIPMENT FOR CREW PASSENGERS & PROVISIONS")
    case "57" => Some("VENTILATION AIR-CONDITIONING & HEATING SYSTEMS")
    case "58" => Some("SANITARY SYST. W/DISCHARGES ACCOMMODATION DRAIN SYSTEMS")
    case "60" => Some("DIESEL ENGINES FOR PROPULSION")
    case "62" => Some("OTHER TYPES OF PROPULSION MACHINERY")
    case "63" => Some("PROPELLERS TRANSMISSIONS FOILS")
    case "64" => Some("BOILERS STEAM & GAS GENERATORS")
    case "65" => Some("MOTOR AGGREGATES FOR MAIN ELECTRIC POWER PRODUCTION")
    case "66" => Some("OTHER AGGR. & GEN. FOR MAIN & EMERGENCY EL. POWER PRODUCTION")
    case "70" => Some("FUEL SYSTEMS")
    case "71" => Some("LUBE OIL SYSTEMS")
    case "72" => Some("COOLING SYSTEMS")
    case "73" => Some("COMPRESSED AIR SYSTEMS")
    case "74" => Some("EXHAUST SYSTEMS & AIR INTAKES")
    case "75" => Some("STEAM CONDENSATE & FEED WATER SYSTEMS")
    case "76" => Some("DISTILLED & MAKE-UP WATER SYSTEMS")
    case "79" => Some("AUTOMATION SYSTEMS FOR MACHINERY")
    case "80" => Some("BALLAST & BILGE SYSTEMS GUTTER PIPES OUTSIDE ACCOMMOD.")
    case "81" => Some("FIRE & LIFEBOAT ALARM FIRE FIGHTING & WASH DOWN SYSTEMS")
    case "83" => Some("SPECIAL COMMON HYDRAULIC OIL SYSTEMS")
    case "85" => Some("General Purpose Equipments")
    case "88" => Some("COMMON ELECTRICAL SYSTEMS")
    case "89" => Some("LIGHTING SYSTEM")
    case "101" => Some("BDP")
    case "102" => Some("BALLAST WATER REPORTS")
    case "103" => Some("CARGO DOUCMENTATION")
    case "104" => Some("CHPC \U{2013} CARGO HANDLING PROCEDURES \U{2013} CHEMICAL TANKERS")
    case "105" => Some("CARGO HANDLING PROCEDURES \U{2013} GAS CARRIERS")
    case "106" => Some("CARGO HANDLING PROCEDURES \U{2013} LNG CARRIERS")
    case "107" => Some("CARGO HANDLING PROCEDURES - PCC")
    case "108" => Some("CARGO HANDLING PROCEDURES - TANKERS")
    case "109" => Some("CARGO HANDLING PROCEDURES - WCC")
    case "110" => Some("COVID-19 MANAGEMENT PLAN")
    case "111" => Some("CYBER SECURITY PROCEDURES CYSM")
    case "112" => Some("EMERGENCY CONTINGENCY PROCEDURE")
    case "113" => Some("ENVIRONMENTAL MANAGEMENT SYSTEM")
    case "114" => Some("ENGINE ROOM PROCEDURES")
    case "115" => Some("EMERGENCY TOWING PROCEDURE MANUAL")
    case "116" => Some("GARBAGE MANAGEMENT PLAN")
    case "117" => Some("ICE CLASS VESSEL PROCEDURES")
    case "118" => Some("INVENTORY OF HAZARDOUS MATERIAL MANAGEMENT PLAN")
    case "119" => Some("OFFICE MANAGEMENT PROCEDURES")
    case "120" => Some("SHIP ENERGY EFFICIENCY MANAGEMENT PLAN")
    case "121" => Some("SHIP MANAGEMENT PROCEDURES")
    case "122" => Some("SHIPBOARD MARINE POLLUTION EMERGENCY PLAN")
    case "123" => Some("SHIPBOARD OIL POLLUTION EMERGENCY PLAN")
    case "124" => Some("SHIP TO SHIP TRANSFER OPERATION PLAN")
    case "125" => Some("VESSEL GENERAL PERMIT")
    case "126" => Some("VOC MANAGEMENT PLAN")
    case "900" => Some("LO ANALYSIS")
    case "902" => Some("FO ANALYSIS")
    case "904" => Some("WATER ANALYSIS")
    case "AP" => Some("ALL PUMPS")
    case "CEN" => Some("CENTRIFUGAL PUMPS")
    case "GRP" => Some("GEAR PUMP")
    case "PDP" => Some("PNEUMATIC DIAPHRAGM PUMP")
    case "PIS" => Some("PISTON PUMPS")
    case "SCR" => Some("SCREW PUMPS")
    case "VAN" => Some("VANE PUMP")
    case _ => None
  }

  /** `code.str[0]`: `NaN` for an empty cell and for the empty string. */
  function Series(code: Option<string>): Option<string>
  {
    if code.Some? && code.value != [] then Some(code.value[..1]) else None
  }

  /** `code.str[:2]`: a slice, so a one-character code is its own
      sub-series and the empty string stays empty. */
  function SubSeries(code: Option<string>): Option<string>
  {
    if code.None? then None
    else if |code.value| <= 2 then code
    else Some(code.value[..2])
  }

  /** `key.map(series_tree)`: `NaN` when the key is `NaN` or not in the
      table. */
  function Label(key: Option<string>): Option<string>
  {
    if key.Some? then SeriesTree(key.value) else None
  }

  function TreeRowOf(r: Record): TreeRow
  {
    var s, sub := Series(r.code), SubSeries(r.code);
    TreeRow(r.triggered, r.code, s, sub, r.name, r.title, r.frequency, Label(s), Label(sub))
  }

  function TreeRows(records: seq<Record>): seq<TreeRow>
  {
    seq(|records|, i requires 0 <= i < |records| => TreeRowOf(records[i]))
  }

  // Series analysis

  predicate InSeries(r: Record, key: string)
  {
    Series(r.code) == Some(key)
  }

  /** The series keys of the jobs that have a series label, in job order. */
  function LabelledSeries(records: seq<Record>): (keys: seq<string>)
    ensures forall k :: k in keys ==> SeriesTree(k).Some?
  {
    if records == [] then []
    else
      var init, s := LabelledSeries(records[..|records| - 1]), Series(records[|records| - 1].code);
      if Label(s).Some? then init + [s.value] else init
  }

  /** The jobs of one series group. */
  function GroupRows(records: seq<Record>, key: string): (rows: seq<Record>)
    ensures forall r :: r in rows <==> r in records && InSeries(r, key)
  {
    var p := (r: Record) => InSeries(r, key);
    FilterMembers(records, p);
    Filter(records, p)
  }

  function JobCount(records: seq<Record>, key: string): nat
  {
    |GroupRows(records, key)|
  }

  /** `treelist.groupby(['Series', 'Series_name']).size()` with its index
      starting at 1. With pandas' default `groupby` options the groups are
      in ascending key order and jobs whose key or label is `NaN` are
      dropped. The label is a function of the key, so ordering by the pair
      is ordering by the key. */
  function SeriesGroups(records: seq<Record>): seq<SeriesGroup>
  {
    var labelled := LabelledSeries(records);
    var keys := Sort(labelled);
    assert forall i :: 0 <= i < |keys| ==> keys[i] in Elems(keys) && keys[i] in Elems(labelled);
    seq(|keys|, i requires 0 <= i < |keys| =>
      SeriesGroup(i + 1, keys[i], SeriesTree(keys[i]).value, JobCount(records, keys[i])))
  }

  // The whole analysis

  function Summarize(jobsFound: nat, records: seq<Record>, today: int): Analysis
  {
    var dups, trig, non := DuplicateJobs(records), TriggeredJobs(records), NonTriggeredJobs(records);
    Analysis(jobsFound, records, TreeRows(records), Overdue(records, today),
             dups, |dups|, trig, |trig|, non, |non|,
             CriticalEquipment(records), CriticalEquipmentNames(records),
             CriticalJobRows(records), CriticalJobs(records), SeriesGroups(records))
  }

  predicate IsDropped(j: Job)
  {
    !IsActive(j)
  }

  /** Lines 108-112 on a sheet that has the required columns: the records,
      or `None` when `pd.to_datetime` raises on a Last Done Date. */
  function Prepare(jobs: seq<Job>): (r: Option<seq<Record>>)
    ensures r.None? <==> exists j :: j in jobs && IsActive(j) && j.lastDone.Unreadable?
  {
    var active := ActiveJobs(jobs);
    FilterMembers(jobs, IsActive);
    if exists j :: j in active && j.lastDone.Unreadable? then None
    else Some(ToRecords(active))
  }

  /** `main()` after the upload was read, with `today` as a parameter. */
  function Analyze(sheet: Sheet, today: int): (r: Outcome)
    ensures r.MissingColumns? <==> exists c :: c in RequiredColumns && c !in sheet.columns
    ensures r.BadLastDoneDate? <==>
      CheckColumns(sheet.columns) &&
      exists j :: j in sheet.jobs && IsActive(j) && j.lastDone.Unreadable?
    ensures r.Done? ==>
      r.analysis.jobsFound == |sheet.jobs| &&
      Prepare(sheet.jobs).Some? && r.analysis.records == Prepare(sheet.jobs).value
  {
    if !CheckColumns(sheet.columns) then MissingColumns
    else
      match Prepare(sheet.jobs)
      case None => BadLastDoneDate
      case Some(records) => Done(Summarize(|sheet.jobs|, records, today))
  }

  // Properties of the preparation

  /** What lines 109-112 make of a job: the cells it keeps, the `Triggered`
      flag and the two converted dates. */
  ghost predicate Converts(j: Job, r: Record)
  {
    r.code == j.code && r.name == j.name && r.title == j.title && r.frequency == j.frequency &&
    r.safetyLevel == j.safetyLevel && r.criticalToSafety == j.criticalToSafety &&
    (r.triggered == "Y" || r.triggered == "N") &&
    (r.triggered == "Y" <==> !j.lastDone.Blank?) &&
    (r.lastDone.Some? <==> j.lastDone.At?) && (j.lastDone.At? ==> r.lastDone.value == j.lastDone.t) &&
    (r.nextDue.Some? <==> j.nextDue.At?) && (j.nextDue.At? ==> r.nextDue.value == j.nextDue.t)
  }

  /** A record as the analysis builds it: flagged "Y" exactly when it has a
      Last Done Date. */
  predicate WellFormed(r: Record)
  {
    (r.triggered == "Y" && r.lastDone.Some?) || (r.triggered == "N" && r.lastDone.None?)
  }

  /** The prepared table has one record per job that is not "0 EVENT", in
      order; with the dropped jobs they make up all the jobs found. */
  lemma PreparedRecords(jobs: seq<Job>)
    requires Prepare(jobs).Some?
    ensures var records, active := Prepare(jobs).value, ActiveJobs(jobs);
      |records| == |active| &&
      (forall i :: 0 <= i < |active| ==> Converts(active[i], records[i])) &&
      |records| + |Filter(jobs, IsDropped)| == |jobs|
  {
    FilterPartition(jobs, IsActive, IsDropped);
  }

  /** Every prepared record is well formed and not "0 EVENT". */
  lemma PreparedRecordsActive(jobs: seq<Job>)
    requires Prepare(jobs).Some?
    ensures forall r :: r in Prepare(jobs).value ==> r.frequency != Some(ZeroEvent) && WellFormed(r)
  {
    var active := ActiveJobs(jobs);
    var records := Prepare(jobs).value;
    forall r | r in records
      ensures r.frequency != Some(ZeroEvent) && WellFormed(r)
    {
      var i :| 0 <= i < |records| && records[i] == r;
      assert active[i] in active;
    }
  }

  // Properties of the selections

  /** No "0 EVENT" job reaches the overdue or duplicate selections. */
  lemma NoZeroEventOverdueOrDuplicate(records: seq<Record>, today: int)
    requires forall r :: r in records ==> r.frequency != Some(ZeroEvent)
    ensures forall r :: r in Overdue(records, today) ==> r.frequency != Some(ZeroEvent)
    ensures forall r :: r in DuplicateJobs(records) ==> r.frequency != Some(ZeroEvent)
  {
    var o, d := Overdue(records, today), DuplicateJobs(records);
    SubsequenceMembers(o, records);
    SubsequenceMembers(d, records);
    assert forall r :: r in o ==> r in Elems(o);
    assert forall r :: r in d ==> r in Elems(d);
  }

  /** No "0 EVENT" job reaches the triggered, non-triggered or critical
      selections. */
  lemma NoZeroEventFlaggedOrCritical(records: seq<Record>)
    requires forall r :: r in records ==> r.frequency != Some(ZeroEvent)
    ensures forall r :: r in TriggeredJobs(records) ==> r.frequency != Some(ZeroEvent)
    ensures forall r :: r in NonTriggeredJobs(records) ==> r.frequency != Some(ZeroEvent)
    ensures forall r :: r in CriticalEquipment(records) ==> r.frequency != Some(ZeroEvent)
    ensures forall r :: r in CriticalJobRows(records) ==> r.frequency != Some(ZeroEvent)
  {
    FilterMembers(records, IsTriggered);
    FilterMembers(records, IsNotTriggered);
    FilterMembers(records, IsCriticalEquipment);
    FilterMembers(records, IsCriticalJob);
  }

  /** No "0 EVENT" job reaches the taxonomy tree. */
  lemma NoZeroEventInTree(records: seq<Record>)
    requires forall r :: r in records ==> r.frequency != Some(ZeroEvent)
    ensures forall t :: t in TreeRows(records) ==> t.frequency != Some(ZeroEvent)
  {
    var tree := TreeRows(records);
    forall t | t in tree
      ensures t.frequency != Some(ZeroEvent)
    {
      var i :| 0 <= i < |tree| && tree[i] == t;
      assert records[i] in records;
    }
  }

  /** Triggered and non-triggered jobs split the records: a record is
      triggered exactly when it has a Last Done Date. */
  lemma TriggeredSplit(records: seq<Record>)
    requires forall r :: r in records ==> WellFormed(r)
    ensures |TriggeredJobs(records)| + |NonTriggeredJobs(records)| == |records|
    ensures forall r :: r in TriggeredJobs(records) <==> r in records && r.lastDone.Some?
    ensures forall r :: r in NonTriggeredJobs(records) <==> r in records && r.lastDone.None?
  {
    FilterPartition(records, IsTriggered, IsNotTriggered);
    FilterMembers(records, IsTriggered);
    FilterMembers(records, IsNotTriggered);
  }

  /** A record is overdue exactly when its Next Due Date is a date whose day
      is before `today`; a record without one never is. */
  lemma OverdueMembers(records: seq<Record>, today: int)
    ensures forall r :: r in Overdue(records, today) <==>
      r in records && r.nextDue.Some? && r.nextDue.value.day < today
  {
    var o := Overdue(records, today);
    forall r | r in records && IsOverdue(r, today)
      ensures r in o
    {
      assert multiset(o)[r] == multiset(records)[r];
    }
    SubsequenceMembers(o, records);
    forall r | r in o
      ensures r in records
    {
      assert r in Elems(o);
    }
  }

  /** A job whose Next Due Date cell is unreadable text is never overdue. */
  lemma UnreadableNextDueNotOverdue(jobs: seq<Job>, today: int, i: nat)
    requires Prepare(jobs).Some?
    requires i < |ActiveJobs(jobs)| && ActiveJobs(jobs)[i].nextDue.Unreadable?
    ensures Prepare(jobs).value[i] !in Overdue(Prepare(jobs).value, today)
  {
    PreparedRecords(jobs);
    OverdueMembers(Prepare(jobs).value, today);
  }

  /** A record is a duplicate exactly when another record has the same
      Equipment Code, Equipment Name and Job Title. */
  lemma DuplicateJobsAt(records: seq<Record>, i: nat)
    requires i < |records|
    ensures records[i] in DuplicateJobs(records) <==>
      exists j :: 0 <= j < |records| && j != i &&
        records[j].code == records[i].code && records[j].name == records[i].name &&
        records[j].title == records[i].title
  {
    DuplicatedAt(records, JobKey, i);
  }

  /** Critical jobs are those critical-equipment records that are also
      critical to safety, in the same order. */
  lemma CriticalJobsWithinEquipment(records: seq<Record>)
    ensures IsSubsequence(CriticalJobRows(records), CriticalEquipment(records))
    ensures forall r :: r in CriticalJobRows(records) <==>
      r in CriticalEquipment(records) && r.criticalToSafety == Some(Yes)
  {
    FilterMonotone(records, IsCriticalJob, IsCriticalEquipment);
    FilterMembers(records, IsCriticalJob);
    FilterMembers(records, IsCriticalEquipment);
  }

  lemma CriticalNameFrom(records: seq<Record>, n: Option<string>)
    requires n in CriticalEquipmentNames(records)
    ensures exists r :: r in records && IsCriticalEquipment(r) && r.name == n
  {
    var ce := CriticalEquipment(records);
    var names := KeyColumn(ce, EquipmentName);
    assert n in Elems(CriticalEquipmentNames(records));
    var k :| 0 <= k < |names| && names[k] == n;
    FilterMembers(records, IsCriticalEquipment);
    assert ce[k] in ce;
  }

  lemma CriticalNameListed(records: seq<Record>, r: Record)
    requires r in records && IsCriticalEquipment(r)
    ensures r.name in CriticalEquipmentNames(records)
  {
    var ce := CriticalEquipment(records);
    var names := KeyColumn(ce, EquipmentName);
    FilterMembers(records, IsCriticalEquipment);
    var k :| 0 <= k < |ce| && ce[k] == r;
    assert names[k] == r.name;
    assert r.name in Elems(names);
  }

  /** The critical equipment list names each critical-equipment record's
      Equipment Name once. */
  lemma CriticalEquipmentNamesAre(records: seq<Record>)
    ensures Distinct(CriticalEquipmentNames(records))
    ensures forall n :: n in CriticalEquipmentNames(records) <==>
      exists r :: r in records && IsCriticalEquipment(r) && r.name == n
  {
    forall n | n in CriticalEquipmentNames(records)
      ensures exists r :: r in records && IsCriticalEquipment(r) && r.name == n
    {
      CriticalNameFrom(records, n);
    }
    forall r | r in records && IsCriticalEquipment(r)
      ensures r.name in CriticalEquipmentNames(records)
    {
      CriticalNameListed(records, r);
    }
  }

  // Properties of the taxonomy

  /** A job has a series label exactly when its code starts with a digit
      from 1 to 9: those are the table's only one-character keys. */
  lemma SeriesLabelIffDigit(code: Option<string>)
    ensures Label(Series(code)).Some? <==>
      code.Some? && code.value != [] && '1' <= code.value[0] <= '9'
  {
    if code.Some? && code.value != [] {
      var c := code.value[0];
      assert code.value[..1] == [c];
      if '1' <= c <= '9' {
        if c == '1' { assert [c] == "1"; }
        else if c == '2' { assert [c] == "2"; }
        else if c == '3' { assert [c] == "3"; }
        else if c == '4' { assert [c] == "4"; }
        else if c == '5' { assert [c] == "5"; }
        else if c == '6' { assert [c] == "6"; }
        else if c == '7' { assert [c] == "7"; }
        else if c == '8' { assert [c] == "8"; }
        else { assert [c] == "9"; }
      }
    }
  }

  /** The series key is a prefix of the sub-series key, which is a prefix of
      the code of at most two characters; a one-character code is its own
      series and sub-series. */
  lemma SeriesKeysArePrefixes(code: Option<string>)
    ensures Series(code).Some? ==>
      SubSeries(code).Some? && Series(code).value <= SubSeries(code).value
    ensures SubSeries(code).Some? ==>
      SubSeries(code).value <= code.value && |SubSeries(code).value| <= 2
    ensures code.Some? && |code.value| == 1 ==> SubSeries(code) == Series(code)
  {
    if code.Some? && |code.value| == 1 {
      assert code.value[..1] == code.value;
    }
  }

  /** A key of at most two characters never finds the entries stored under
      "101" (BDP) or "CEN" (CENTRIFUGAL PUMPS). */
  lemma ShortKeyLabels(k: string)
    requires |k| <= 2
    ensures SeriesTree(k) != Some("BDP") && SeriesTree(k) != Some("CENTRIFUGAL PUMPS")
  {
  }

  /** The table's entries under keys longer than two characters are never
      looked up: no job is labelled BDP or CENTRIFUGAL PUMPS. */
  lemma LongKeysNeverLabel(code: Option<string>)
    ensures Label(Series(code)) != Some("BDP") && Label(SubSeries(code)) != Some("BDP")
    ensures Label(Series(code)) != Some("CENTRIFUGAL PUMPS") &&
            Label(SubSeries(code)) != Some("CENTRIFUGAL PUMPS")
  {
    if Series(code).Some? {
      ShortKeyLabels(Series(code).value);
    }
    if SubSeries(code).Some? {
      ShortKeyLabels(SubSeries(code).value);
    }
  }

  /** The series keys of the labelled jobs. */
  lemma {:induction false} LabelledSeriesMembers(records: seq<Record>)
    ensures forall k :: k in LabelledSeries(records) <==>
      exists r :: r in records && Label(Series(r.code)).Some? && Series(r.code) == Some(k)
  {
    if records != [] {
      var init, last := records[..|records| - 1], records[|records| - 1];
      assert records == init + [last];
      LabelledSeriesMembers(init);
      forall r | r in records
        ensures r in init || r == last
      {
      }
    }
  }

  /** The series analysis is numbered from 1 and in ascending key order,
      each key with its table label. */
  lemma SeriesGroupsOrdered(records: seq<Record>)
    ensures var g := SeriesGroups(records);
      (forall i :: 0 <= i < |g| ==> g[i].number == i + 1) &&
      (forall i, j :: 0 <= i < j < |g| ==> LexLess(g[i].series, g[j].series)) &&
      (forall i :: 0 <= i < |g| ==> SeriesTree(g[i].series) == Some(g[i].seriesName))
  {
    var keys := Sort(LabelledSeries(records));
    assert forall i :: 0 <= i < |keys| ==> keys[i] in Elems(keys);
  }

  /** Every series group counts the jobs of its series, and none is empty. */
  lemma SeriesGroupCounts(records: seq<Record>)
    ensures var g := SeriesGroups(records);
      forall i :: 0 <= i < |g| ==> g[i].jobCount == |GroupRows(records, g[i].series)| && g[i].jobCount > 0
  {
    var labelled := LabelledSeries(records);
    var keys := Sort(labelled);
    var g := SeriesGroups(records);
    LabelledSeriesMembers(records);
    forall i | 0 <= i < |g|
      ensures g[i].jobCount > 0
    {
      assert keys[i] in Elems(keys);
      assert keys[i] in labelled;
      var r :| r in records && Label(Series(r.code)).Some? && Series(r.code) == Some(keys[i]);
      assert r in GroupRows(records, keys[i]);
    }
  }

  /** Every job with a series label is counted in the group of its series. */
  lemma SeriesGroupsCoverLabelled(records: seq<Record>)
    ensures var g := SeriesGroups(records);
      forall r :: r in records && Label(Series(r.code)).Some? ==>
        exists i :: 0 <= i < |g| && Series(r.code) == Some(g[i].series)
  {
    var labelled := LabelledSeries(records);
    var keys := Sort(labelled);
    var g := SeriesGroups(records);
    LabelledSeriesMembers(records);
    forall r | r in records && Label(Series(r.code)).Some?
      ensures exists i :: 0 <= i < |g| && Series(r.code) == Some(g[i].series)
    {
      var k := Series(r.code).value;
      assert k in labelled;
      assert k in Elems(keys);
      var i :| 0 <= i < |keys| && keys[i] == k;
      assert g[i].series == k;
    }
  }
}
