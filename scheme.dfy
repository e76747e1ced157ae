/**
 * The colour-scheme document: the per-device matrix of colour names built on
 * export, the merge of a device section into the scheme object, and what
 * loading a scheme file does to the editor's in-memory scheme.
 */
module Scheme {
  import opened Wrappers
  import opened Json
  import opened Colors
  import opened Layout

  /** A button tagged with a cell of a rows x cols colour grid. */
  predicate InGrid(b: Button, rows: int, cols: int) {
    b.pos.Some? && 0 <= b.pos.value.0 < rows && 0 <= b.pos.value.1 < cols
  }

  /** A rows x cols colour grid. */
  predicate GridShape(colors: seq<seq<Color>>, rows: nat, cols: nat) {
    |colors| == rows && forall i :: 0 <= i < rows ==> |colors[i]| == cols
  }

  /** Every button of the discovery grid is tagged with a cell of the matrix. */
  lemma DiscoveryInGrid(rows: nat, cols: nat)
    ensures forall k :: 0 <= k < |Registered(DiscoveryNodes(rows, cols))| ==>
      InGrid(Registered(DiscoveryNodes(rows, cols))[k], rows, cols)
  {
    var bs := Registered(DiscoveryNodes(rows, cols));
    CellGridMembers(rows, cols, DiscoveryButton);
    forall k | 0 <= k < |bs| ensures InGrid(bs[k], rows, cols) {
      assert bs[k] in bs;
      var i: nat, j: nat :| i < rows && j < cols && bs[k] == DiscoveryButton(i, j);
      assert bs[k].pos == Some((i, j));
    }
  }

  /** Every button of the mousemat strip is tagged with a cell of a one-row matrix. */
  lemma MousematInGrid(cols: nat)
    ensures forall k :: 0 <= k < |ButtonsOf(MousematNodes(cols))| ==>
      InGrid(ButtonsOf(MousematNodes(cols))[k], 1, cols)
  {
    MousematRegistry(cols);
  }

  // ---------------------------------------------------------------------------
  // The exported matrix
  // ---------------------------------------------------------------------------

  /** QJsonArray::insert(i, x): x lands at index i and the elements from i on shift right. */
  function InsertAt<T>(s: seq<T>, i: nat, x: T): (r: seq<T>)
    requires i <= |s|
    ensures |r| == |s| + 1 && r[i] == x
    ensures forall k :: 0 <= k < i ==> r[k] == s[k]
    ensures forall k :: i <= k < |s| ==> r[k + 1] == s[k]
    ensures multiset(r) == multiset(s) + multiset{x}
  {
    assert s == s[..i] + s[i..];
    s[..i] + [x] + s[i..]
  }

  /** The matrix as allocated: rows + 1 rows, each of cols empty strings. */
  function BlankMatrix(rows: nat, cols: nat): seq<seq<string>> {
    seq(rows + 1, _ => seq(cols, _ => ""))
  }

  /** How many of the buttons are tagged with row r. */
  function RowCount(bs: seq<Button>, r: int): nat {
    if bs == [] then 0
    else RowCount(bs[..|bs| - 1], r) + (if bs[|bs| - 1].pos.Some? && bs[|bs| - 1].pos.value.0 == r then 1 else 0)
  }

  /** The colour names of the buttons tagged with row r, in registry order. */
  function RowNames(bs: seq<Button>, r: int, colors: seq<seq<Color>>, rows: nat, cols: nat, name: Color -> string): (ns: seq<string>)
    requires GridShape(colors, rows, cols)
    requires forall k :: 0 <= k < |bs| ==> InGrid(bs[k], rows, cols)
    ensures |ns| == RowCount(bs, r)
  {
    if bs == [] then []
    else
      var b := bs[|bs| - 1];
      assert InGrid(b, rows, cols);
      RowNames(bs[..|bs| - 1], r, colors, rows, cols, name) +
      (if b.pos.value.0 == r then [name(colors[b.pos.value.0][b.pos.value.1])] else [])
  }

  /**
   * The export loop over the registry: each button inserts the name of its
   * cell's colour at its column of its row, shifting what was there.
   */
  function Populate(m: seq<seq<string>>, bs: seq<Button>, colors: seq<seq<Color>>, rows: nat, cols: nat,
                    name: Color -> string): (r: seq<seq<string>>)
    requires GridShape(colors, rows, cols)
    requires rows < |m| && forall i :: 0 <= i < |m| ==> cols <= |m[i]|
    requires forall k :: 0 <= k < |bs| ==> InGrid(bs[k], rows, cols)
    ensures |r| == |m|
    ensures forall i :: 0 <= i < |m| ==> |r[i]| == |m[i]| + RowCount(bs, i)
  {
    if bs == [] then m
    else
      var prev := Populate(m, bs[..|bs| - 1], colors, rows, cols, name);
      var b := bs[|bs| - 1];
      assert InGrid(b, rows, cols);
      var row, col := b.pos.value.0, b.pos.value.1;
      prev[row := InsertAt(prev[row], col, name(colors[row][col]))]
  }

  /** The matrix exportToJSON writes for the device. */
  function ExportMatrix(rows: nat, cols: nat, bs: seq<Button>, colors: seq<seq<Color>>, name: Color -> string): seq<seq<string>>
    requires GridShape(colors, rows, cols)
    requires forall k :: 0 <= k < |bs| ==> InGrid(bs[k], rows, cols)
  {
    Populate(BlankMatrix(rows, cols), bs, colors, rows, cols, name)
  }

  /** Each row holds what it started with plus the colour names of the buttons of that row. */
  lemma {:induction false} PopulateRowContents(m: seq<seq<string>>, bs: seq<Button>, colors: seq<seq<Color>>,
                                               rows: nat, cols: nat, name: Color -> string, i: nat)
    requires GridShape(colors, rows, cols)
    requires rows < |m| && forall i :: 0 <= i < |m| ==> cols <= |m[i]|
    requires forall k :: 0 <= k < |bs| ==> InGrid(bs[k], rows, cols)
    requires i < |m|
    ensures multiset(Populate(m, bs, colors, rows, cols, name)[i]) ==
            multiset(m[i]) + multiset(RowNames(bs, i, colors, rows, cols, name))
  {
    if bs != [] {
      PopulateRowContents(m, bs[..|bs| - 1], colors, rows, cols, name, i);
    }
  }

  /** A row no button is tagged with keeps exactly its initial contents. */
  lemma {:induction false} PopulateUntouchedRow(m: seq<seq<string>>, bs: seq<Button>, colors: seq<seq<Color>>,
                                                rows: nat, cols: nat, name: Color -> string, i: nat)
    requires GridShape(colors, rows, cols)
    requires rows < |m| && forall i :: 0 <= i < |m| ==> cols <= |m[i]|
    requires forall k :: 0 <= k < |bs| ==> InGrid(bs[k], rows, cols)
    requires i < |m| && RowCount(bs, i) == 0
    ensures Populate(m, bs, colors, rows, cols, name)[i] == m[i]
  {
    if bs != [] {
      PopulateUntouchedRow(m, bs[..|bs| - 1], colors, rows, cols, name, i);
    }
  }

  /** No button tags the extra row: it can only be tagged with a row below `rows`. */
  lemma {:induction false} NoButtonInExtraRow(bs: seq<Button>, rows: nat, cols: nat)
    requires forall k :: 0 <= k < |bs| ==> InGrid(bs[k], rows, cols)
    ensures RowCount(bs, rows) == 0
  {
    if bs != [] {
      NoButtonInExtraRow(bs[..|bs| - 1], rows, cols);
    }
  }

  /**
   * The exported matrix has rows + 1 rows; row r has cols + (number of buttons
   * of row r) entries, namely cols empty strings plus the colour names of those
   * buttons; the extra last row stays cols empty strings.
   */
  lemma ExportMatrixShape(rows: nat, cols: nat, bs: seq<Button>, colors: seq<seq<Color>>, name: Color -> string)
    requires GridShape(colors, rows, cols)
    requires forall k :: 0 <= k < |bs| ==> InGrid(bs[k], rows, cols)
    ensures |ExportMatrix(rows, cols, bs, colors, name)| == rows + 1
    ensures forall r :: 0 <= r <= rows ==> |ExportMatrix(rows, cols, bs, colors, name)[r]| == cols + RowCount(bs, r)
    ensures forall r :: 0 <= r <= rows ==>
      multiset(ExportMatrix(rows, cols, bs, colors, name)[r]) ==
      multiset(seq(cols, _ => "")) + multiset(RowNames(bs, r, colors, rows, cols, name))
    ensures ExportMatrix(rows, cols, bs, colors, name)[rows] == seq(cols, _ => "")
  {
    var m := BlankMatrix(rows, cols);
    forall r | 0 <= r <= rows
      ensures multiset(ExportMatrix(rows, cols, bs, colors, name)[r]) ==
              multiset(seq(cols, _ => "")) + multiset(RowNames(bs, r, colors, rows, cols, name))
    {
      PopulateRowContents(m, bs, colors, rows, cols, name, r);
    }
    NoButtonInExtraRow(bs, rows, cols);
    PopulateUntouchedRow(m, bs, colors, rows, cols, name, rows);
  }

  // ---------------------------------------------------------------------------
  // The scheme document
  // ---------------------------------------------------------------------------

  /** A QJsonArray of QJsonArrays of strings. */
  function MatrixJson(m: seq<seq<string>>): Json {
    Array(seq(|m|, i requires 0 <= i < |m| => Array(seq(|m[i]|, j requires 0 <= j < |m[i]| => Str(m[i][j])))))
  }

  /** The device child of a scheme: {"Type": device type, "Matrix": matrix}. */
  function DeviceSection(deviceType: string, m: seq<seq<string>>): Json {
    Object(Put(Put([], "Type", Str(deviceType)), "Matrix", MatrixJson(m)))
  }

  /** The fresh scheme object exportToJSON starts from. */
  function DefaultProfile(): seq<Member> {
    Put(Put([], "Name", Str("Default Profile")), "Author", Str("RazerGenie"))
  }

  /** Where the device section goes: into the loaded scheme when it has members, else into a fresh profile. */
  function MergeSection(config: seq<Member>, devName: string, section: Json): (r: seq<Member>)
    ensures Contains(r, devName) && Value(r, devName) == section
  {
    var base := if config != [] then config else DefaultProfile();
    PutValue(base, devName, section, devName);
    Put(base, devName, section)
  }

  /**
   * After the merge the device's entry is the new section; a non-empty scheme
   * keeps every other entry; an empty one becomes the default profile.
   */
  lemma MergeSectionFacts(config: seq<Member>, devName: string, section: Json)
    ensures Value(MergeSection(config, devName, section), devName) == section
    ensures config != [] ==> forall k :: k != devName ==>
      Value(MergeSection(config, devName, section), k) == Value(config, k)
    ensures config == [] && devName != "Name" ==>
      Value(MergeSection(config, devName, section), "Name") == Str("Default Profile")
    ensures config == [] && devName != "Author" ==>
      Value(MergeSection(config, devName, section), "Author") == Str("RazerGenie")
    ensures config == [] ==> forall k :: k != devName && k != "Name" && k != "Author" ==>
      !Contains(MergeSection(config, devName, section), k)
    ensures Sorted(config) ==> Sorted(MergeSection(config, devName, section))
  {
    var base := if config != [] then config else DefaultProfile();
    PutValue(base, devName, section, devName);
    forall k | k != devName
      ensures Value(MergeSection(config, devName, section), k) == Value(base, k)
    {
      PutValue(base, devName, section, k);
    }
    forall k | k != devName && k != "Name" && k != "Author"
      ensures config == [] ==> !Contains(MergeSection(config, devName, section), k)
    {
      PutValue(base, devName, section, k);
      PutValue(Put([], "Name", Str("Default Profile")), "Author", Str("RazerGenie"), k);
      PutValue([], "Name", Str("Default Profile"), k);
    }
    PutValue([], "Name", Str("Default Profile"), "Name");
    PutValue(Put([], "Name", Str("Default Profile")), "Author", Str("RazerGenie"), "Name");
    PutValue(Put([], "Name", Str("Default Profile")), "Author", Str("RazerGenie"), "Author");
    PutSorted([], "Name", Str("Default Profile"));
    PutSorted(Put([], "Name", Str("Default Profile")), "Author", Str("RazerGenie"));
    if Sorted(base) {
      PutSorted(base, devName, section);
    }
  }

  // ---------------------------------------------------------------------------
  // Loading a scheme
  // ---------------------------------------------------------------------------

  /** The scheme file as found: absent, not parseable, or a parsed document. */
  datatype SchemeFile = Missing | Unparsable | Parsed(doc: Json)

  /**
   * How loadColours ends: no file, a malformed file, no entry for this device
   * (it will be added on export), or the entry was found and abort() is reached.
   */
  datatype LoadOutcome = NoScheme | BadScheme | NewDevice | Halted

  datatype LoadResult = LoadResult(config: seq<Member>, outcome: LoadOutcome)

  /**
   * loadColours as written: the device entry is read through the non-const
   * operator[] of the member `config`, which inserts a Null entry for a
   * missing name, so isUndefined() holds only for an entry stored as
   * Undefined, which a QJsonObject never holds: the early return is dead.
   */
  function LoadColoursAsWritten(file: SchemeFile, config: seq<Member>, devName: string): (r: LoadResult)
    ensures !file.Parsed? ==> r.config == config
    ensures r.outcome == NoScheme <==> file == Missing
    ensures r.outcome == BadScheme <==> file == Unparsable
    ensures r.outcome == NewDevice <==>
      file.Parsed? && Contains(ToObject(file.doc), devName) && Value(ToObject(file.doc), devName) == Undefined
    ensures file.Parsed? && !Contains(ToObject(file.doc), devName) ==> r.outcome == Halted
    ensures file.Parsed? ==> Contains(r.config, devName)
  {
    match file
    case Missing => LoadResult(config, NoScheme)
    case Unparsable => LoadResult(config, BadScheme)
    case Parsed(doc) =>
      var c := ToObject(doc);
      PutValue(c, devName, Null, devName);
      if SubscriptValue(c, devName) == Undefined then LoadResult(SubscriptObject(c, devName), NewDevice)
      else LoadResult(SubscriptObject(c, devName), Halted)
  }

  /** As written, a device the scheme does not know does not take the early return: abort() is reached. */
  lemma AsWrittenUnknownDeviceHalts(doc: Json, config: seq<Member>, devName: string)
    requires !Contains(ToObject(doc), devName)
    ensures LoadColoursAsWritten(Parsed(doc), config, devName).outcome == Halted
    ensures Value(LoadColoursAsWritten(Parsed(doc), config, devName).config, devName) == Null
  {
    PutValue(ToObject(doc), devName, Null, devName);
  }

  /** An empty scheme document and any device name: as written the editor halts. */
  lemma AsWrittenEmptySchemeHalts()
    ensures LoadColoursAsWritten(Parsed(Object([])), [], "Razer BlackWidow Chroma").outcome == Halted
  {
    AsWrittenUnknownDeviceHalts(Object([]), [], "Razer BlackWidow Chroma");
  }

  /**
   * loadColours with the device entry looked up without inserting: a missing
   * file or a malformed one leaves the scheme as it was; a parsed document
   * becomes the scheme, and only a document with an entry for the device
   * reaches the unfinished apply step.
   */
  function LoadColours(file: SchemeFile, config: seq<Member>, devName: string): (r: LoadResult)
    ensures !file.Parsed? ==> r.config == config
    ensures file.Parsed? ==> r.config == ToObject(file.doc)
    ensures r.outcome == NoScheme <==> file == Missing
    ensures r.outcome == BadScheme <==> file == Unparsable
    ensures r.outcome == NewDevice <==> file.Parsed? && !Contains(ToObject(file.doc), devName)
    ensures r.outcome == Halted <==> file.Parsed? && Contains(ToObject(file.doc), devName)
  {
    match file
    case Missing => LoadResult(config, NoScheme)
    case Unparsable => LoadResult(config, BadScheme)
    case Parsed(doc) =>
      var c := ToObject(doc);
      if !Contains(c, devName) then LoadResult(c, NewDevice)
      else LoadResult(c, Halted)
  }

  /**
   * Where the device has an entry with a real value, the code as written and
   * the corrected lookup end the same way and leave the same scheme.
   */
  lemma LoadColoursAgreeOnKnownDevice(file: SchemeFile, config: seq<Member>, devName: string)
    requires file.Parsed? ==> Contains(ToObject(file.doc), devName) && Value(ToObject(file.doc), devName) != Undefined
    ensures LoadColoursAsWritten(file, config, devName) == LoadColours(file, config, devName)
  {
  }
}
