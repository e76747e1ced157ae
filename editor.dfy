/**
 * The custom-lighting editor dialog (CustomEditor): its colour model of the
 * device's LED matrix, the selected colour and draw mode, the grid of matrix
 * buttons it builds for the device, and the commands it sends to the device.
 */
module Editor {
  import opened Wrappers
  import opened Json
  import opened Colors
  import opened LibOpenRazer
  import opened Layout
  import opened Scheme

  /** What a click on a matrix button does to its cell: paint the selected colour, or black. */
  datatype DrawStatus = Set | Clear

  function BlackRow(cols: nat): seq<Color> {
    seq(cols, _ => Black)
  }

  /** Every LED off. */
  function BlackGrid(rows: nat, cols: nat): seq<seq<Color>> {
    seq(rows, _ => BlackRow(cols))
  }

  /** The commands clearAll sends: every row blanked, in row order, then setCustom. */
  function ClearAllCalls(rows: nat, cols: nat): seq<DeviceCall> {
    seq(rows, i => SetKeyRow(i, 0, cols - 1, BlackRow(cols))) + [SetCustom]
  }

  /**
   * The commands updateKeyrow sends after n earlier ones: the row, then
   * setCustom only if the row was accepted (the && short-circuits).
   */
  function KeyrowCalls(respond: (nat, DeviceCall) -> bool, n: nat, row: int, cols: nat, colours: seq<Color>): seq<DeviceCall> {
    var first := SetKeyRow(row, 0, cols - 1, colours);
    [first] + (if respond(n, first) then [SetCustom] else [])
  }

  /** What updateKeyrow returns: both commands accepted. */
  function KeyrowAccepted(respond: (nat, DeviceCall) -> bool, n: nat, row: int, cols: nat, colours: seq<Color>): bool {
    respond(n, SetKeyRow(row, 0, cols - 1, colours)) && respond(n + 1, SetCustom)
  }

  /** The colour a click leaves in its cell. */
  function Paint(status: DrawStatus, selected: Color): Color {
    match status
    case Set => selected
    case Clear => Black
  }

  // ---------------------------------------------------------------------------
  // Layout assets
  // ---------------------------------------------------------------------------

  /**
   * Where parseKeyboardJSON looks for a layout asset: the development copy
   * (../../data/matrix_layouts/<name>.json) first, then the installed one
   * (<data directory>/matrix_layouts/<name>.json).
   */
  datatype AssetLocation = Development | Installed

  /**
   * The document parseKeyboardJSON reads: the development copy when it opens,
   * else the installed one; None when neither opens. `files` gives the
   * document read from a location (a text that does not parse reads as Null).
   */
  function LayoutAsset(files: (AssetLocation, string) -> Option<Json>, jsonName: string): Option<Json> {
    if files(Development, jsonName).Some? then files(Development, jsonName) else files(Installed, jsonName)
  }

  /** The layout description the dispatch leaves in keyboardKeys (initially empty). */
  function LoadedKeys(g: Grid, files: (AssetLocation, string) -> Option<Json>): seq<Member> {
    if g.KeyboardGrid? && g.asset.Some? && LayoutAsset(files, g.asset.value).Some?
    then ToObject(LayoutAsset(files, g.asset.value).value)
    else []
  }

  /** The grid the dialog shows for a dispatch decision. */
  function BuiltGrid(g: Grid, rows: nat, cols: nat, reported: string, keys: seq<Member>): seq<seq<Node>> {
    match g
    case DiscoveryGrid => DiscoveryNodes(rows, cols)
    case KeyboardGrid(_) => KeyboardNodes(KeyboardRows(keys, ResolveLocale(reported, keys)))
    case MousematGrid => [MousematNodes(cols)]
    case NoGrid => []
  }

  /**
   * Whether building the dialog asks it to close: the dispatch found nothing
   * to build, the layout asset did not load, or no usable locale was found.
   */
  predicate BuildCloses(g: Grid, files: (AssetLocation, string) -> Option<Json>, reported: string, keys: seq<Member>) {
    PlanCloses(g) ||
    (g.KeyboardGrid? &&
     ((g.asset.Some? && LayoutAsset(files, g.asset.value).None?) || ResolveLocale(reported, keys).closes))
  }

  /** The scheme exportToJSON leaves: the device section merged into the scheme. */
  function ExportedScheme(config: seq<Member>, devName: string, deviceType: string, rows: nat, cols: nat,
                          bs: seq<Button>, colors: seq<seq<Color>>, name: Color -> string): seq<Member>
    requires GridShape(colors, rows, cols)
    requires forall k :: 0 <= k < |bs| ==> InGrid(bs[k], rows, cols)
  {
    MergeSection(config, devName, DeviceSection(deviceType, ExportMatrix(rows, cols, bs, colors, name)))
  }

  /** The constructor's colour model loop: rows of cols black entries each. */
  method BlackModel(rows: nat, cols: nat) returns (model: seq<seq<Color>>)
    ensures model == BlackGrid(rows, cols)
  {
    model := [];
    var i := 0;
    while i < rows
      invariant 0 <= i <= rows
      invariant model == BlackGrid(i, cols)
    {
      var row: seq<Color> := [];
      var j := 0;
      while j < cols
        invariant 0 <= j <= cols
        invariant row == BlackRow(j)
      {
        row := row + [Black];
        j := j + 1;
      }
      model := model + [row];
      i := i + 1;
    }
  }

  /** exportToJSON's allocation loop: rows + 1 rows of cols empty names, each inserted at the end. */
  method AllocateMatrix(rows: nat, cols: nat) returns (matrix: seq<seq<string>>)
    ensures matrix == BlankMatrix(rows, cols)
  {
    matrix := [];
    var i := 0;
    while i <= rows
      invariant 0 <= i <= rows + 1
      invariant |matrix| == i
      invariant forall m :: 0 <= m < i ==> matrix[m] == seq(cols, _ => "")
    {
      var ins: seq<string> := [];
      var j := 0;
      while j < cols
        invariant 0 <= j <= cols
        invariant ins == seq(j, _ => "")
      {
        ins := ins + [""];
        j := j + 1;
      }
      matrix := InsertAt(matrix, i, ins);
      i := i + 1;
    }
  }

  /** exportToJSON's fill loop: each button's colour name inserted at its cell, in registry order. */
  method PopulateMatrix(blank: seq<seq<string>>, bs: seq<Button>, colors: seq<seq<Color>>, rows: nat, cols: nat,
                        name: Color -> string) returns (matrix: seq<seq<string>>)
    requires GridShape(colors, rows, cols)
    requires rows < |blank| && forall i :: 0 <= i < |blank| ==> cols <= |blank[i]|
    requires forall k :: 0 <= k < |bs| ==> InGrid(bs[k], rows, cols)
    ensures matrix == Populate(blank, bs, colors, rows, cols, name)
  {
    matrix := blank;
    var i := 0;
    while i < |bs|
      invariant 0 <= i <= |bs|
      invariant matrix == Populate(blank, bs[..i], colors, rows, cols, name)
    {
      assert InGrid(bs[i], rows, cols);
      var (r, c) := bs[i].pos.value;
      var keyColour := name(colors[r][c]);
      var ins := matrix[r];
      ins := InsertAt(ins, c, keyColour);
      matrix := matrix[r := ins];
      assert bs[..i + 1][..i] == bs[..i];
      i := i + 1;
    }
    assert bs[..i] == bs;
  }

  // ---------------------------------------------------------------------------
  // The dialog
  // ---------------------------------------------------------------------------

  class CustomEditor {
    const device: Device
    const rows: nat                       // dimens[0]
    const cols: nat                       // dimens[1]
    var colors: seq<seq<Color>>           // the colour of every LED, as the editor believes it is
    var selectedColor: Color
    var drawStatus: DrawStatus
    var grid: seq<seq<Node>>              // the rows of buttons and spacers added to the dialog
    var matrixPushButtons: seq<Button>    // every matrix button, in creation order
    var keyboardKeys: seq<Member>         // the parsed layout description, one member per locale
    var config: seq<Member>               // the colour scheme in memory
    var closed: bool                      // closeWindow() was called
    var halted: bool                      // abort() was reached

    ghost predicate Valid()
      reads this
    {
      rows == device.rows && cols == device.cols && GridShape(colors, rows, cols)
    }

    /**
     * Builds the dialog: an all-black colour model, green selected, draw mode
     * Set; then the grid the dispatch selects; then either the scheme is
     * loaded (export enabled and a keyboard) or every LED is cleared.
     */
    constructor (device: Device, launchMatrixDiscovery: bool, exportToJson: bool,
                 files: (AssetLocation, string) -> Option<Json>, scheme: SchemeFile)
      modifies device
      ensures Valid() && this.device == device
      ensures colors == BlackGrid(rows, cols) && selectedColor == Green && drawStatus == Set
      ensures var g := PlanGrid(launchMatrixDiscovery, device.deviceType, device.rows, device.cols);
        keyboardKeys == LoadedKeys(g, files) &&
        grid == BuiltGrid(g, device.rows, device.cols, device.keyboardLayout, keyboardKeys) &&
        matrixPushButtons == Registered(grid) &&
        closed == BuildCloses(g, files, device.keyboardLayout, keyboardKeys)
      ensures exportToJson && device.deviceType == "keyboard" ==>
        device.trace == old(device.trace) &&
        config == Scheme.LoadColours(scheme, [], device.name).config &&
        halted == (Scheme.LoadColours(scheme, [], device.name).outcome == Halted)
      ensures !(exportToJson && device.deviceType == "keyboard") ==>
        device.trace == old(device.trace) + ClearAllCalls(rows, cols) && config == [] && !halted
    {
      this.device := device;
      rows := device.rows;
      cols := device.cols;
      var model := BlackModel(device.rows, device.cols);
      colors := model;
      selectedColor := Green;
      drawStatus := Set;
      grid := [];
      matrixPushButtons := [];
      keyboardKeys := [];
      config := [];
      closed := false;
      halted := false;
      new;
      BuildGrid(launchMatrixDiscovery, files);
      if exportToJson && device.deviceType == "keyboard" {
        LoadColours(scheme);
      } else {
        ClearAll();
      }
    }

    /**
     * The device-type dispatch of the constructor: the discovery grid when
     * requested; a keyboard grid (after loading the asset its dimensions
     * select); the mousemat strip; otherwise the dialog is closed.
     */
    method BuildGrid(launchMatrixDiscovery: bool, files: (AssetLocation, string) -> Option<Json>)
      requires grid == [] && matrixPushButtons == [] && keyboardKeys == [] && !closed
      modifies this`grid, this`matrixPushButtons, this`keyboardKeys, this`closed
      ensures var g := PlanGrid(launchMatrixDiscovery, device.deviceType, rows, cols);
        keyboardKeys == LoadedKeys(g, files) &&
        grid == BuiltGrid(g, rows, cols, device.keyboardLayout, keyboardKeys) &&
        matrixPushButtons == Registered(grid) &&
        closed == BuildCloses(g, files, device.keyboardLayout, keyboardKeys)
    {
      var plan := PlanGrid(launchMatrixDiscovery, device.deviceType, rows, cols);
      match plan {
        case DiscoveryGrid =>
          grid := GenerateMatrixDiscovery();
        case KeyboardGrid(asset) =>
          grid := BuildKeyboard(asset, files);
        case MousematGrid =>
          var hbox := GenerateMousemat();
          grid := [hbox];
          RegisteredSnoc([], hbox);
          assert [] + [hbox] == [hbox];
        case NoGrid =>
          CloseWindow();
      }
    }

    /**
     * The keyboard branch of the dispatch: the layout asset is loaded (the
     * dialog closes when it does not load, or when the dimensions have none),
     * and the keyboard is generated in any case.
     */
    method BuildKeyboard(asset: Option<string>, files: (AssetLocation, string) -> Option<Json>) returns (vbox: seq<seq<Node>>)
      requires matrixPushButtons == [] && keyboardKeys == [] && !closed
      modifies this`matrixPushButtons, this`keyboardKeys, this`closed
      ensures keyboardKeys == LoadedKeys(KeyboardGrid(asset), files)
      ensures vbox == BuiltGrid(KeyboardGrid(asset), rows, cols, device.keyboardLayout, keyboardKeys)
      ensures matrixPushButtons == Registered(vbox)
      ensures closed == BuildCloses(KeyboardGrid(asset), files, device.keyboardLayout, keyboardKeys)
    {
      if asset.Some? {
        var ok := ParseKeyboardJson(asset.value, files);
        if !ok {
          CloseWindow();
        }
      } else {
        CloseWindow();
      }
      vbox := GenerateKeyboard();
    }

    /** closeWindow: the dialog is asked to close (it is deleted once closed). */
    method CloseWindow()
      modifies this`closed
      ensures closed
    {
      closed := true;
    }

    /** generateMatrixDiscovery: one button per cell, labelled "i_j", row by row. */
    method GenerateMatrixDiscovery() returns (vbox: seq<seq<Node>>)
      modifies this`matrixPushButtons
      ensures vbox == DiscoveryNodes(rows, cols)
      ensures matrixPushButtons == old(matrixPushButtons) + Registered(vbox)
    {
      vbox := [];
      var i := 0;
      while i < rows
        invariant 0 <= i <= rows
        invariant vbox == CellGrid(i, cols, DiscoveryButton)
        invariant matrixPushButtons == old(matrixPushButtons) + Registered(vbox)
      {
        var hbox: seq<Node> := [];
        var j := 0;
        while j < cols
          invariant 0 <= j <= cols
          invariant hbox == CellRow(i, j, DiscoveryButton)
          invariant matrixPushButtons == old(matrixPushButtons) + Registered(vbox) + ButtonsOf(hbox)
        {
          var btn := DiscoveryButton(i, j);
          CellRowStep(i, j, DiscoveryButton, hbox);
          hbox := hbox + [Key(btn)];
          matrixPushButtons := matrixPushButtons + [btn];
          j := j + 1;
        }
        RegisteredStep(old(matrixPushButtons), vbox, hbox);
        CellGridStep(i, cols, DiscoveryButton, vbox, hbox);
        vbox := vbox + [hbox];
        i := i + 1;
      }
    }

    /** generateMousemat: one button per column, labelled with the column, tagged (0, column). */
    method GenerateMousemat() returns (hbox: seq<Node>)
      modifies this`matrixPushButtons
      ensures hbox == MousematNodes(cols)
      ensures matrixPushButtons == old(matrixPushButtons) + ButtonsOf(hbox)
    {
      hbox := [];
      var i := 0;
      while i < cols
        invariant 0 <= i <= cols
        invariant hbox == MousematNodes(i)
        invariant matrixPushButtons == old(matrixPushButtons) + ButtonsOf(hbox)
      {
        var btn := MousematButton(i);
        MousematStep(i, hbox);
        hbox := hbox + [Key(btn)];
        matrixPushButtons := matrixPushButtons + [btn];
        i := i + 1;
      }
    }

    /**
     * The first half of generateKeyboard: picks the locale (the reported one,
     * else the first fallback present, closing the dialog when the reported
     * one is known but missing or when nothing is found) and returns its rows.
     */
    method SelectKeyboardLayout() returns (keyboardLayout: seq<Member>)
      modifies this`closed
      ensures keyboardLayout == KeyboardRows(keyboardKeys, ResolveLocale(device.keyboardLayout, keyboardKeys))
      ensures closed == (old(closed) || ResolveLocale(device.keyboardLayout, keyboardKeys).closes)
    {
      keyboardLayout := [];
      var found := false;
      var kbdLayout := device.keyboardLayout;
      if kbdLayout != UnknownLayout && Contains(keyboardKeys, kbdLayout) {
        keyboardLayout := ToObject(Value(keyboardKeys, kbdLayout));
      } else {
        if kbdLayout != UnknownLayout {
          CloseWindow();
        }
        var langs := FallbackLayouts;
        var k := 0;
        while k < |langs|
          invariant 0 <= k <= |langs|
          invariant forall m :: 0 <= m < k ==> !Contains(keyboardKeys, langs[m])
          invariant !found && keyboardLayout == []
          invariant closed == (old(closed) || kbdLayout != UnknownLayout)
        {
          if Contains(keyboardKeys, langs[k]) {
            assert FirstPresentAt(langs, keyboardKeys, k);
            FirstPresentUnique(langs, keyboardKeys, k);
            keyboardLayout := ToObject(Value(keyboardKeys, langs[k]));
            found := true;
            break;
          }
          k := k + 1;
        }
        if !found {
          FirstPresentSpec(langs, keyboardKeys);
          CloseWindow();
        }
      }
    }

    /**
     * generateKeyboard: builds one row per member of the chosen locale's
     * object, a button for each labelled key and a spacer for the others.
     */
    method GenerateKeyboard() returns (vbox: seq<seq<Node>>)
      modifies this`closed, this`matrixPushButtons
      ensures vbox == KeyboardNodes(KeyboardRows(keyboardKeys, ResolveLocale(device.keyboardLayout, keyboardKeys)))
      ensures matrixPushButtons == old(matrixPushButtons) + Registered(vbox)
      ensures closed == (old(closed) || ResolveLocale(device.keyboardLayout, keyboardKeys).closes)
    {
      var keyboardLayout := SelectKeyboardLayout();
      vbox := GenerateKeyRows(keyboardLayout);
    }

    /** The loop of generateKeyboard over the rows of the chosen locale. */
    method GenerateKeyRows(keyboardLayout: seq<Member>) returns (vbox: seq<seq<Node>>)
      modifies this`matrixPushButtons
      ensures vbox == KeyboardNodes(keyboardLayout)
      ensures matrixPushButtons == old(matrixPushButtons) + Registered(vbox)
    {
      vbox := [];
      var r := 0;
      while r < |keyboardLayout|
        invariant 0 <= r <= |keyboardLayout|
        invariant vbox == KeyboardNodes(keyboardLayout[..r])
        invariant matrixPushButtons == old(matrixPushButtons) + Registered(vbox)
      {
        var hbox := GenerateKeyRow(ToArray(keyboardLayout[r].value));
        RegisteredStep(old(matrixPushButtons), vbox, hbox);
        KeyboardNodesSnoc(keyboardLayout, r);
        vbox := vbox + [hbox];
        r := r + 1;
      }
      assert keyboardLayout[..r] == keyboardLayout;
    }

    /** The loop of generateKeyboard over the keys of one row. */
    method GenerateKeyRow(row: seq<Json>) returns (hbox: seq<Node>)
      modifies this`matrixPushButtons
      ensures hbox == RowNodes(row)
      ensures matrixPushButtons == old(matrixPushButtons) + ButtonsOf(hbox)
    {
      hbox := [];
      var c := 0;
      while c < |row|
        invariant 0 <= c <= |row|
        invariant hbox == RowNodes(row[..c])
        invariant matrixPushButtons == old(matrixPushButtons) + ButtonsOf(hbox)
      {
        var node := GenerateKey(row[c]);
        RowNodesStep(row, c, hbox, node);
        hbox := hbox + [node];
        c := c + 1;
      }
      assert row[..c] == row;
    }

    /** One key descriptor: a registered button when it has a label, otherwise a spacer. */
    method GenerateKey(key: Json) returns (node: Node)
      modifies this`matrixPushButtons
      ensures node == KeyNode(key)
      ensures matrixPushButtons == old(matrixPushButtons) + (if node.Key? then [node.button] else [])
    {
      if Labelled(key) {
        var btn := ButtonFor(key);
        node := Key(btn);
        matrixPushButtons := matrixPushButtons + [btn];
      } else {
        node := Spacer(SpacerWidth, SpacerHeight);
      }
    }

    /**
     * parseKeyboardJSON: reads the layout asset from the development path,
     * else the installed one; fails (keeping the old description) when neither
     * opens.
     */
    method ParseKeyboardJson(jsonName: string, files: (AssetLocation, string) -> Option<Json>) returns (ok: bool)
      modifies this`keyboardKeys
      ensures ok == LayoutAsset(files, jsonName).Some?
      ensures ok ==> keyboardKeys == ToObject(LayoutAsset(files, jsonName).value)
      ensures !ok ==> keyboardKeys == old(keyboardKeys)
    {
      var file := files(Development, jsonName);
      if file.None? {
        file := files(Installed, jsonName);
        if file.None? {
          return false;
        }
      }
      keyboardKeys := ToObject(file.value);
      return true;
    }

    /** updateKeyrow: sends the model's row to the device, then setCustom if the row was accepted. */
    method UpdateKeyrow(row: int) returns (ok: bool)
      requires Valid() && 0 <= row < rows && !halted
      modifies device
      ensures device.trace == old(device.trace) + KeyrowCalls(device.respond, |old(device.trace)|, row, cols, colors[row])
      ensures ok == KeyrowAccepted(device.respond, |old(device.trace)|, row, cols, colors[row])
    {
      ok := device.SetKeyRowCall(row, 0, cols - 1, colors[row]);
      if ok {
        ok := device.SetCustomCall();
      }
    }

    /** clearAll: blanks every row on the device, sets custom mode, and resets the model to black. */
    method ClearAll()
      requires Valid() && !halted
      modifies this`colors, device
      ensures Valid() && colors == BlackGrid(rows, cols)
      ensures device.trace == old(device.trace) + ClearAllCalls(rows, cols)
    {
      var blankColors: seq<Color> := [];
      var i := 0;
      while i < cols
        invariant 0 <= i <= cols
        invariant blankColors == BlackRow(i)
      {
        blankColors := blankColors + [Black];
        i := i + 1;
      }

      i := 0;
      while i < rows
        invariant 0 <= i <= rows
        invariant colors == old(colors)
        invariant device.trace == old(device.trace) + seq(i, k => SetKeyRow(k, 0, cols - 1, BlackRow(cols)))
      {
        var sent := device.SetKeyRowCall(i, 0, cols - 1, blankColors);
        i := i + 1;
      }
      var sent := device.SetCustomCall();

      i := 0;
      while i < |colors|
        invariant 0 <= i <= |colors| == rows
        invariant forall k :: 0 <= k < rows ==> |colors[k]| == cols
        invariant forall k :: 0 <= k < i ==> colors[k] == BlackRow(cols)
        invariant device.trace == old(device.trace) + ClearAllCalls(rows, cols)
      {
        var j := 0;
        while j < |colors[i]|
          invariant 0 <= i < rows && |colors| == rows
          invariant 0 <= j <= |colors[i]| == cols
          invariant forall k :: 0 <= k < rows ==> |colors[k]| == cols
          invariant forall k :: 0 <= k < i ==> colors[k] == BlackRow(cols)
          invariant forall m :: 0 <= m < j ==> colors[i][m] == Black
          invariant device.trace == old(device.trace) + ClearAllCalls(rows, cols)
        {
          colors := colors[i := colors[i][j := Black]];
          j := j + 1;
        }
        assert colors[i] == BlackRow(cols);
        i := i + 1;
      }
    }

    /** colorButtonClicked: the colour picked in the dialog becomes the selected one; a cancelled dialog changes nothing. */
    method ColorButtonClicked(picked: Option<Color>)
      requires !halted
      modifies this`selectedColor
      ensures selectedColor == if picked.Some? then picked.value else old(selectedColor)
    {
      if picked.Some? {
        selectedColor := picked.value;
      }
    }

    /**
     * onMatrixPushButtonClicked: the clicked button's cell takes the colour
     * the draw mode gives it, and that row is sent to the device.
     */
    method OnMatrixPushButtonClicked(k: nat)
      requires Valid() && !halted && k < |matrixPushButtons| && InGrid(matrixPushButtons[k], rows, cols)
      modifies this`colors, device
      ensures Valid()
      ensures var (r, c) := matrixPushButtons[k].pos.value;
        colors == old(colors)[r := old(colors)[r][c := Paint(drawStatus, selectedColor)]] &&
        device.trace == old(device.trace) + KeyrowCalls(device.respond, |old(device.trace)|, r, cols, colors[r])
    {
      var (r, c) := matrixPushButtons[k].pos.value;
      if drawStatus == Set {
        colors := colors[r := colors[r][c := selectedColor]];
      } else {
        colors := colors[r := colors[r][c := Black]];
      }
      var sent := UpdateKeyrow(r);
    }

    method SetDrawStatusSet()
      requires !halted
      modifies this`drawStatus
      ensures drawStatus == Set
    {
      drawStatus := Set;
    }

    method SetDrawStatusClear()
      requires !halted
      modifies this`drawStatus
      ensures drawStatus == Clear
    {
      drawStatus := Clear;
    }

    /**
     * loadColours: a missing or malformed scheme changes nothing; a parsed
     * one becomes the scheme in memory, and an entry for this device reaches
     * abort(). The device entry is looked up without inserting into the
     * scheme (see Scheme.LoadColoursAsWritten for the code as written).
     */
    method LoadColours(scheme: SchemeFile)
      modifies this`config, this`halted
      ensures config == Scheme.LoadColours(scheme, old(config), device.name).config
      ensures halted == (old(halted) || Scheme.LoadColours(scheme, old(config), device.name).outcome == Halted)
    {
      match scheme {
        case Missing =>
          return;
        case Unparsable =>
          return;
        case Parsed(doc) =>
          config := ToObject(doc);
          var devName := device.name;
          if !Contains(config, devName) {
            return;
          }
          halted := true;
      }
    }

    /**
     * exportToJSON: for a keyboard, builds the rows + 1 by cols matrix of
     * empty names, inserts each button's colour name at its cell, and merges
     * the device section into the scheme; returns the document written.
     */
    method ExportToJson(name: Color -> string) returns (written: Option<Json>)
      requires Valid() && !halted
      requires device.deviceType == "keyboard" ==>
        forall k :: 0 <= k < |matrixPushButtons| ==> InGrid(matrixPushButtons[k], rows, cols)
      modifies this`config
      ensures device.deviceType != "keyboard" ==> written == None && config == old(config)
      ensures device.deviceType == "keyboard" ==>
        config == ExportedScheme(old(config), device.name, device.deviceType, rows, cols, matrixPushButtons, colors, name) &&
        written == Some(Object(config))
    {
      if device.deviceType != "keyboard" {
        return None;
      }
      var devName := device.name;
      var json := Put(Put([], "Name", Str("Default Profile")), "Author", Str("RazerGenie"));

      var matrix := AllocateMatrix(rows, cols);
      matrix := PopulateMatrix(matrix, matrixPushButtons, colors, rows, cols, name);

      var devSection := Object(Put(Put([], "Type", Str(device.deviceType)), "Matrix", MatrixJson(matrix)));
      if config != [] {
        config := Put(config, devName, devSection);
      } else {
        json := Put(json, devName, devSection);
        config := json;
      }
      written := Some(Object(config));
    }

    /** ~CustomEditor: exports the scheme when exporting is enabled. */
    method Close(exportToJson: bool, name: Color -> string) returns (written: Option<Json>)
      requires Valid() && !halted
      requires exportToJson && device.deviceType == "keyboard" ==>
        forall k :: 0 <= k < |matrixPushButtons| ==> InGrid(matrixPushButtons[k], rows, cols)
      modifies this`config
      ensures !(exportToJson && device.deviceType == "keyboard") ==> written == None && config == old(config)
      ensures exportToJson && device.deviceType == "keyboard" ==>
        config == ExportedScheme(old(config), device.name, device.deviceType, rows, cols, matrixPushButtons, colors, name) &&
        written == Some(Object(config))
    {
      if exportToJson {
        written := ExportToJson(name);
      } else {
        written := None;
      }
    }
  }
}
