/**
 * The pure part of the editor's layout generation: which grid a device gets,
 * which keyboard layout locale is used, and the abstract trees of key
 * buttons and spacers that the grid builders produce.
 */
module Layout {
  import opened Wrappers
  import opened Json

  /** A matrix position (row, column), as MatrixPushButton::setMatrixPos takes it. */
  type Pos = (int, int)

  /**
   * A MatrixPushButton: its text, its fixed (width, height) when one is set,
   * its matrix position when it was tagged with one, and whether it is enabled.
   */
  datatype Button = Button(text: string, size: Option<(int, int)>, pos: Option<Pos>, enabled: bool)

  /** One item of a row layout: a key button, or a fixed blank spacer. */
  datatype Node = Key(button: Button) | Spacer(width: int, height: int)

  const DefaultKeyWidth: int := 60
  const KeyHeight: int := 63
  const SpacerWidth: int := 66
  const SpacerHeight: int := 69

  // ---------------------------------------------------------------------------
  // Device-type dispatch
  // ---------------------------------------------------------------------------

  /**
   * The grid the dialog builds: the discovery grid, a keyboard grid (with the
   * layout asset its dimensions select, if any), the mousemat strip, or none.
   */
  datatype Grid = DiscoveryGrid | KeyboardGrid(asset: Option<string>) | MousematGrid | NoGrid

  /** The keyboards whose matrix dimensions have a layout asset. */
  const KeyboardAssets: map<(int, int), string> :=
    map[(6, 16) := "razerblade16", (6, 22) := "razerdefault22", (6, 25) := "razerblade25"]

  function PlanGrid(discovery: bool, deviceType: string, rows: int, cols: int): (g: Grid)
    ensures discovery ==> g == DiscoveryGrid
    ensures !discovery && deviceType == "keyboard" ==> g.KeyboardGrid?
    ensures !discovery && deviceType == "mousemat" ==>
      (g == MousematGrid <==> rows == 1 && cols == 15) && (g == MousematGrid || g == NoGrid)
    ensures !discovery && deviceType != "keyboard" && deviceType != "mousemat" ==> g == NoGrid
  {
    if discovery then DiscoveryGrid
    else if deviceType == "keyboard" then
      if rows == 6 && cols == 16 then KeyboardGrid(Some("razerblade16"))
      else if rows == 6 && cols == 22 then KeyboardGrid(Some("razerdefault22"))
      else if rows == 6 && cols == 25 then KeyboardGrid(Some("razerblade25"))
      else KeyboardGrid(None)
    else if deviceType == "mousemat" then
      if rows == 1 && cols == 15 then MousematGrid else NoGrid
    else NoGrid
  }

  /** A keyboard gets the layout asset its matrix dimensions select, and none for other dimensions. */
  lemma PlanGridKeyboardAssets(rows: int, cols: int)
    ensures PlanGrid(false, "keyboard", rows, cols) ==
      KeyboardGrid(if (rows, cols) in KeyboardAssets then Some(KeyboardAssets[(rows, cols)]) else None)
  {
  }

  /** The dispatch itself takes the close path: unknown dimensions or an unsupported type. */
  predicate PlanCloses(g: Grid) {
    g == KeyboardGrid(None) || g == NoGrid
  }

  lemma PlanClosesExactly(discovery: bool, deviceType: string, rows: int, cols: int)
    ensures PlanCloses(PlanGrid(discovery, deviceType, rows, cols)) <==>
      !discovery && (deviceType == "keyboard" ==> (rows, cols) !in KeyboardAssets)
                 && (deviceType == "mousemat" ==> (rows, cols) != (1, 15))
  {
  }

  // ---------------------------------------------------------------------------
  // Keyboard layout locale
  // ---------------------------------------------------------------------------

  /** What the daemon reports for a keyboard whose layout it does not know. */
  const UnknownLayout: string := "unknown"

  /** The locales tried, in order, when the reported one cannot be used. */
  const FallbackLayouts: seq<string> := ["de_DE", "en_US", "en_GB"]

  /** `langs[i]` is in the description and no earlier entry of `langs` is. */
  predicate FirstPresentAt(langs: seq<string>, keys: seq<Member>, i: int) {
    0 <= i < |langs| && Contains(keys, langs[i]) && forall j :: 0 <= j < i ==> !Contains(keys, langs[j])
  }

  /** The first of `langs` that the layout description contains. */
  function FirstPresent(langs: seq<string>, keys: seq<Member>): Option<string> {
    if langs == [] then None
    else if Contains(keys, langs[0]) then Some(langs[0])
    else FirstPresent(langs[1..], keys)
  }

  /** FirstPresent finds nothing exactly when no entry is present, and otherwise the first present one. */
  lemma {:induction false} FirstPresentSpec(langs: seq<string>, keys: seq<Member>)
    ensures FirstPresent(langs, keys).None? <==> forall i :: 0 <= i < |langs| ==> !Contains(keys, langs[i])
    ensures FirstPresent(langs, keys).Some? ==>
      exists i :: FirstPresentAt(langs, keys, i) && langs[i] == FirstPresent(langs, keys).value
  {
    if langs == [] {
    } else if Contains(keys, langs[0]) {
      assert FirstPresentAt(langs, keys, 0);
    } else {
      var r := FirstPresent(langs[1..], keys);
      FirstPresentSpec(langs[1..], keys);
      if r.Some? {
        var i :| FirstPresentAt(langs[1..], keys, i) && langs[1..][i] == r.value;
        forall j | 0 <= j < i + 1 ensures !Contains(keys, langs[j]) {
          if j > 0 {
            assert langs[j] == langs[1..][j - 1];
          }
        }
        assert FirstPresentAt(langs, keys, i + 1);
      }
      assert forall i :: 0 < i < |langs| ==> langs[i] == langs[1..][i - 1];
    }
  }

  /** Only one index is the first present one, so FirstPresent finds it. */
  lemma FirstPresentUnique(langs: seq<string>, keys: seq<Member>, k: int)
    requires FirstPresentAt(langs, keys, k)
    ensures FirstPresent(langs, keys) == Some(langs[k])
  {
    FirstPresentSpec(langs, keys);
    var r := FirstPresent(langs, keys);
    var i :| FirstPresentAt(langs, keys, i) && langs[i] == r.value;
    assert !(i < k) && !(k < i);
  }

  /** The locale a keyboard grid is built from, and whether choosing it closed the dialog. */
  datatype LocaleChoice = LocaleChoice(locale: Option<string>, closes: bool)

  /**
   * The locale generateKeyboard uses. The chosen locale is always in the
   * description, and the dialog closes exactly when the reported locale is
   * known but missing, or when no locale is found.
   */
  function ResolveLocale(reported: string, keys: seq<Member>): (r: LocaleChoice)
    ensures r.locale.Some? ==> Contains(keys, r.locale.value)
    ensures r.closes <==> (reported != UnknownLayout && !Contains(keys, reported)) || r.locale.None?
  {
    if reported != UnknownLayout && Contains(keys, reported) then LocaleChoice(Some(reported), false)
    else
      var fallback := FirstPresent(FallbackLayouts, keys);
      FirstPresentSpec(FallbackLayouts, keys);
      LocaleChoice(fallback, reported != UnknownLayout || fallback.None?)
  }

  /**
   * A known reported locale that the description has is used as is;
   * otherwise the first fallback present is; the locale chosen is always in
   * the description; and the dialog closes exactly when the reported locale
   * is known but missing, or when no locale could be chosen.
   */
  lemma ResolveLocaleSpec(reported: string, keys: seq<Member>)
    ensures reported != UnknownLayout && Contains(keys, reported) ==>
      ResolveLocale(reported, keys) == LocaleChoice(Some(reported), false)
    ensures !(reported != UnknownLayout && Contains(keys, reported)) ==>
      ResolveLocale(reported, keys).locale == FirstPresent(FallbackLayouts, keys)
    ensures ResolveLocale(reported, keys).locale.Some? ==> Contains(keys, ResolveLocale(reported, keys).locale.value)
    ensures ResolveLocale(reported, keys).closes <==>
      (reported != UnknownLayout && !Contains(keys, reported)) || ResolveLocale(reported, keys).locale.None?
  {
    FirstPresentSpec(FallbackLayouts, keys);
  }

  /** Nothing usable: neither the reported locale nor any fallback is in the description. */
  lemma NoLocaleCloses(reported: string, keys: seq<Member>)
    requires !Contains(keys, reported)
    requires forall l :: l in FallbackLayouts ==> !Contains(keys, l)
    ensures ResolveLocale(reported, keys) == LocaleChoice(None, true)
  {
    assert forall i :: 0 <= i < |FallbackLayouts| ==> FallbackLayouts[i] in FallbackLayouts;
    FirstPresentSpec(FallbackLayouts, keys);
  }

  /** The rows (a JSON object of rows) of the locale chosen; none when there is no locale. */
  function KeyboardRows(keys: seq<Member>, choice: LocaleChoice): seq<Member> {
    if choice.locale.Some? then ToObject(Value(keys, choice.locale.value)) else []
  }

  // ---------------------------------------------------------------------------
  // Grid builders, as functions from their inputs to button / spacer trees
  // ---------------------------------------------------------------------------

  /** A key descriptor becomes a button unless its label reads as null (missing labels do). */
  predicate Labelled(key: Json) {
    SubscriptValue(ToObject(key), "label") != Null
  }

  /** The button a labelled key descriptor becomes. */
  function ButtonFor(key: Json): Button {
    var obj := ToObject(key);
    var width := if Contains(obj, "width") then ToInt(Value(obj, "width")) else DefaultKeyWidth;
    var pos :=
      if Contains(obj, "matrix") then
        var arr := ToArray(Value(obj, "matrix"));
        Some((ToInt(At(arr, 0)), ToInt(At(arr, 1))))
      else None;
    Button(ToString(SubscriptValue(obj, "label")), Some((width, KeyHeight)), pos, !Contains(obj, "disabled"))
  }

  function KeyNode(key: Json): Node {
    if Labelled(key) then Key(ButtonFor(key)) else Spacer(SpacerWidth, SpacerHeight)
  }

  /**
   * What a key descriptor becomes: a button exactly when it has a label that
   * is not null (a missing label gives a spacer); the button shows the label,
   * is as wide as "width" says (60 without one) and 63 high, is tagged with
   * the first two entries of "matrix" when there is one, and is disabled
   * exactly when "disabled" is present.
   */
  lemma KeyNodeSpec(key: Json)
    ensures var obj := ToObject(key);
      (KeyNode(key).Key? <==> Contains(obj, "label") && Value(obj, "label") != Null) &&
      (!KeyNode(key).Key? ==> KeyNode(key) == Spacer(66, 69))
    ensures var obj := ToObject(key);
      KeyNode(key).Key? ==>
        var b := KeyNode(key).button;
        b.text == ToString(Value(obj, "label")) &&
        (Contains(obj, "width") ==> b.size == Some((ToInt(Value(obj, "width")), 63))) &&
        (!Contains(obj, "width") ==> b.size == Some((60, 63))) &&
        (b.pos.Some? <==> Contains(obj, "matrix")) &&
        (Contains(obj, "matrix") ==>
          b.pos.value == (ToInt(At(ToArray(Value(obj, "matrix")), 0)), ToInt(At(ToArray(Value(obj, "matrix")), 1)))) &&
        (b.enabled <==> !Contains(obj, "disabled"))
  {
  }

  /** The row layout of one JSON row of key descriptors. */
  function RowNodes(row: seq<Json>): (r: seq<Node>)
    ensures |r| == |row|
  {
    if row == [] then [] else RowNodes(row[..|row| - 1]) + [KeyNode(row[|row| - 1])]
  }

  /** The keyboard grid: one row layout per member of the chosen locale's object. */
  function KeyboardNodes(rows: seq<Member>): (r: seq<seq<Node>>)
    ensures |r| == |rows|
  {
    if rows == [] then [] else KeyboardNodes(rows[..|rows| - 1]) + [RowNodes(ToArray(rows[|rows| - 1].value))]
  }

  /** One key descriptor more gives one node more. */
  lemma RowNodesSnoc(row: seq<Json>, c: nat)
    requires c < |row|
    ensures RowNodes(row[..c + 1]) == RowNodes(row[..c]) + [KeyNode(row[c])]
  {
    assert row[..c + 1][..c] == row[..c];
  }

  /** One row more gives one row layout more. */
  lemma KeyboardNodesSnoc(rows: seq<Member>, r: nat)
    requires r < |rows|
    ensures KeyboardNodes(rows[..r + 1]) == KeyboardNodes(rows[..r]) + [RowNodes(ToArray(rows[r].value))]
  {
    assert rows[..r + 1][..r] == rows[..r];
  }

  /** The buttons of a row layout, in order (spacers are not registered). */
  function ButtonsOf(row: seq<Node>): seq<Button> {
    if row == [] then []
    else ButtonsOf(row[..|row| - 1]) + (if row[|row| - 1].Key? then [row[|row| - 1].button] else [])
  }

  /** The buttons of a grid, row after row: the order in which the builders register them. */
  function Registered(grid: seq<seq<Node>>): seq<Button> {
    if grid == [] then [] else Registered(grid[..|grid| - 1]) + ButtonsOf(grid[|grid| - 1])
  }

  /** Every key descriptor of the rows, row after row. */
  function AllKeys(rows: seq<Member>): seq<Json> {
    if rows == [] then [] else AllKeys(rows[..|rows| - 1]) + ToArray(rows[|rows| - 1].value)
  }

  /** The buttons of the labelled keys among `keys`, in order. */
  function LabelledButtons(keys: seq<Json>): seq<Button> {
    if keys == [] then []
    else LabelledButtons(keys[..|keys| - 1]) + (if Labelled(keys[|keys| - 1]) then [ButtonFor(keys[|keys| - 1])] else [])
  }

  lemma {:induction false} LabelledButtonsAppend(a: seq<Json>, b: seq<Json>)
    ensures LabelledButtons(a + b) == LabelledButtons(a) + LabelledButtons(b)
  {
    if b != [] {
      assert (a + b)[..|a + b| - 1] == a + b[..|b| - 1];
      LabelledButtonsAppend(a, b[..|b| - 1]);
    } else {
      assert a + b == a;
    }
  }

  lemma {:induction false} RowButtons(row: seq<Json>)
    ensures ButtonsOf(RowNodes(row)) == LabelledButtons(row)
  {
    if row != [] {
      assert RowNodes(row) == RowNodes(row[..|row| - 1]) + [KeyNode(row[|row| - 1])];
      RowButtons(row[..|row| - 1]);
    }
  }

  /**
   * The keyboard builder registers exactly the buttons of the labelled keys,
   * in row-then-key order; unlabelled keys contribute only spacers.
   */
  lemma {:induction false} KeyboardRegistry(rows: seq<Member>)
    ensures Registered(KeyboardNodes(rows)) == LabelledButtons(AllKeys(rows))
  {
    if rows != [] {
      var n := |rows| - 1;
      assert KeyboardNodes(rows) == KeyboardNodes(rows[..n]) + [RowNodes(ToArray(rows[n].value))];
      KeyboardRegistry(rows[..n]);
      RowButtons(ToArray(rows[n].value));
      LabelledButtonsAppend(AllKeys(rows[..n]), ToArray(rows[n].value));
    }
  }

  /** Every registered keyboard button has the fixed key height and comes from a labelled key. */
  lemma {:induction false} LabelledButtonsShape(keys: seq<Json>)
    ensures |LabelledButtons(keys)| <= |keys|
    ensures forall b :: b in LabelledButtons(keys) ==>
      b.size.Some? && b.size.value.1 == KeyHeight &&
      exists i :: 0 <= i < |keys| && Labelled(keys[i]) && b == ButtonFor(keys[i])
  {
    if keys != [] {
      var n := |keys| - 1;
      LabelledButtonsShape(keys[..n]);
      forall b | b in LabelledButtons(keys)
        ensures exists i :: 0 <= i < |keys| && Labelled(keys[i]) && b == ButtonFor(keys[i])
      {
        if b in LabelledButtons(keys[..n]) {
          var i :| 0 <= i < n && Labelled(keys[..n][i]) && b == ButtonFor(keys[..n][i]);
          assert keys[i] == keys[..n][i];
        } else {
          assert Labelled(keys[n]) && b == ButtonFor(keys[n]);
        }
      }
    }
  }

  /** QString::number for a non-negative int: its decimal digits. */
  function DecimalString(n: nat): string {
    if n < 10 then ["0123456789"[n]] else DecimalString(n / 10) + ["0123456789"[n % 10]]
  }

  /** QString::number gives a non-empty string of decimal digits. */
  lemma {:induction false} DecimalDigits(n: nat)
    ensures |DecimalString(n)| > 0
    ensures forall k :: 0 <= k < |DecimalString(n)| ==> '0' <= DecimalString(n)[k] <= '9'
  {
    if n >= 10 {
      DecimalDigits(n / 10);
    }
  }

  /** The number a string of decimal digits stands for. */
  function DigitsValue(s: string): int {
    if s == [] then 0 else DigitsValue(s[..|s| - 1]) * 10 + (s[|s| - 1] as int - '0' as int)
  }

  /** QString::number writes `n` itself: its digits read back as `n`. */
  lemma {:induction false} DecimalValue(n: nat)
    ensures DigitsValue(DecimalString(n)) == n
  {
    var s := DecimalString(n);
    if n >= 10 {
      DecimalValue(n / 10);
      assert s[..|s| - 1] == DecimalString(n / 10);
    }
    assert "0123456789"[n % 10] as int - '0' as int == n % 10;
  }

  /** Two strings of digits joined by "_" split back into the same two strings. */
  lemma SplitAtSeparator(a: string, b: string, c: string, d: string)
    requires forall k :: 0 <= k < |a| ==> '0' <= a[k] <= '9'
    requires forall k :: 0 <= k < |c| ==> '0' <= c[k] <= '9'
    requires a + "_" + b == c + "_" + d
    ensures a == c && b == d
  {
    var s := a + "_" + b;
    assert s[|a|] == '_';
    assert (c + "_" + d)[|c|] == '_';
    assert a == s[..|a|] && c == s[..|c|];
    assert b == s[|a| + 1..] && d == s[|c| + 1..];
  }

  /** The mousemat button for column `i`: labelled with the column, tagged (0, i). */
  function MousematButton(i: nat): Button {
    Button(DecimalString(i), None, Some((0, i)), true)
  }

  /** The mousemat strip: one button per column. */
  function MousematNodes(cols: nat): (r: seq<Node>)
    ensures |r| == cols
  {
    seq(cols, i requires 0 <= i < cols => Key(MousematButton(i)))
  }

  /** The discovery button for cell (i, j): labelled "i_j", tagged (i, j). */
  function DiscoveryButton(i: nat, j: nat): Button {
    Button(DecimalString(i) + "_" + DecimalString(j), None, Some((i, j)), true)
  }

  /** The label "i_j" of a discovery button determines its cell. */
  lemma DiscoveryLabelInjective(i: nat, j: nat, i': nat, j': nat)
    requires DiscoveryButton(i, j).text == DiscoveryButton(i', j').text
    ensures i == i' && j == j'
    ensures DiscoveryButton(i, j) == DiscoveryButton(i', j')
  {
    DecimalDigits(i);
    DecimalDigits(i');
    SplitAtSeparator(DecimalString(i), DecimalString(j), DecimalString(i'), DecimalString(j'));
    DecimalValue(i);
    DecimalValue(j);
    DecimalValue(i');
    DecimalValue(j');
  }

  /** The label of mousemat button i reads back as i. */
  lemma MousematLabelValue(i: nat)
    ensures DigitsValue(MousematButton(i).text) == i
  {
    DecimalValue(i);
  }

  /** A full rows x cols grid of key buttons, `cell(i, j)` at row i, column j. */
  function CellGrid(rows: nat, cols: nat, cell: (nat, nat) -> Button): (r: seq<seq<Node>>)
    ensures |r| == rows
  {
    seq(rows, i requires 0 <= i < rows => CellRow(i, cols, cell))
  }

  /** Row `i` of a CellGrid. */
  function CellRow(i: nat, cols: nat, cell: (nat, nat) -> Button): (r: seq<Node>)
    ensures |r| == cols
  {
    seq(cols, j requires 0 <= j < cols => Key(cell(i, j)))
  }

  /** The matrix-discovery grid: every cell of the matrix, row by row. */
  function DiscoveryNodes(rows: nat, cols: nat): (r: seq<seq<Node>>) {
    CellGrid(rows, cols, DiscoveryButton)
  }

  /** Appending a node to a row appends its button, if it is a key. */
  lemma ButtonsOfSnoc(row: seq<Node>, n: Node)
    ensures ButtonsOf(row + [n]) == ButtonsOf(row) + (if n.Key? then [n.button] else [])
  {
    assert (row + [n])[..|row|] == row;
  }

  /** One step of the row builder: the node of the next key extends both the row and its buttons. */
  lemma RowNodesStep(row: seq<Json>, c: nat, hbox: seq<Node>, node: Node)
    requires c < |row| && hbox == RowNodes(row[..c]) && node == KeyNode(row[c])
    ensures hbox + [node] == RowNodes(row[..c + 1])
    ensures ButtonsOf(hbox + [node]) == ButtonsOf(hbox) + (if node.Key? then [node.button] else [])
  {
    ButtonsOfSnoc(hbox, node);
    RowNodesSnoc(row, c);
  }

  /** One step of a grid builder: registering a row's buttons registers the grid with that row appended. */
  lemma RegisteredStep(start: seq<Button>, grid: seq<seq<Node>>, row: seq<Node>)
    ensures start + Registered(grid) + ButtonsOf(row) == start + Registered(grid + [row])
  {
    RegisteredSnoc(grid, row);
  }

  /** A row made only of key buttons registers all of them, in order. */
  lemma {:induction false} ButtonsOfKeys(row: seq<Node>)
    requires forall k :: 0 <= k < |row| ==> row[k].Key?
    ensures |ButtonsOf(row)| == |row|
    ensures forall k :: 0 <= k < |row| ==> ButtonsOf(row)[k] == row[k].button
  {
    if row != [] {
      ButtonsOfKeys(row[..|row| - 1]);
    }
  }

  /** The mousemat builder registers `cols` buttons, the i-th tagged (0, i). */
  lemma MousematRegistry(cols: nat)
    ensures |ButtonsOf(MousematNodes(cols))| == cols
    ensures forall i :: 0 <= i < cols ==>
      ButtonsOf(MousematNodes(cols))[i] == MousematButton(i) && MousematButton(i).pos == Some((0, i))
  {
    ButtonsOfKeys(MousematNodes(cols));
  }

  /** Where row `i` starts in a row-major sequence of rows of `cols` cells. */
  function RowStart(i: nat, cols: nat): nat {
    if i == 0 then 0 else RowStart(i - 1, cols) + cols
  }

  lemma {:induction false} RowStartIsProduct(i: nat, cols: nat)
    ensures RowStart(i, cols) == i * cols
  {
    if i > 0 {
      RowStartIsProduct(i - 1, cols);
      assert (i - 1) * cols + cols == i * cols;
    }
  }

  lemma {:induction false} RowStartMonotone(i: nat, n: nat, cols: nat)
    requires i < n
    ensures RowStart(i, cols) + cols <= RowStart(n, cols)
  {
    if i < n - 1 {
      RowStartMonotone(i, n - 1, cols);
    }
  }

  /** A cell grid is the grid of one row fewer with the last row appended. */
  lemma CellGridSnoc(rows: nat, cols: nat, cell: (nat, nat) -> Button)
    requires rows > 0
    ensures CellGrid(rows, cols, cell) == CellGrid(rows - 1, cols, cell) + [CellRow(rows - 1, cols, cell)]
  {
  }

  /** Appending a row to a grid appends its buttons to the registry. */
  lemma RegisteredSnoc(grid: seq<seq<Node>>, row: seq<Node>)
    ensures Registered(grid + [row]) == Registered(grid) + ButtonsOf(row)
  {
    assert (grid + [row])[..|grid|] == grid;
  }

  /** A cell row registers its cells in column order. */
  lemma CellRowButtons(i: nat, cols: nat, cell: (nat, nat) -> Button)
    ensures |ButtonsOf(CellRow(i, cols, cell))| == cols
    ensures forall j :: 0 <= j < cols ==> ButtonsOf(CellRow(i, cols, cell))[j] == cell(i, j)
  {
    ButtonsOfKeys(CellRow(i, cols, cell));
  }

  /** Cell (i, j) sits at RowStart(i) + j of a sequence whose rows have `cols` cells each. */
  predicate RowMajor(s: seq<Button>, rows: nat, cols: nat, cell: (nat, nat) -> Button) {
    |s| == RowStart(rows, cols) &&
    forall i: nat, j: nat :: i < rows && j < cols ==> CellAt(s, i, j, cols, cell)
  }

  /** `s` holds cell (i, j) at RowStart(i) + j. */
  predicate CellAt(s: seq<Button>, i: nat, j: nat, cols: nat, cell: (nat, nat) -> Button) {
    RowStart(i, cols) + j < |s| && s[RowStart(i, cols) + j] == cell(i, j)
  }

  /** One more row of cells, appended, keeps a row-major sequence row-major. */
  lemma RowMajorSnoc(prefix: seq<Button>, last: seq<Button>, n: nat, cols: nat, cell: (nat, nat) -> Button)
    requires RowMajor(prefix, n, cols, cell)
    requires |last| == cols && forall j :: 0 <= j < cols ==> last[j] == cell(n, j)
    ensures RowMajor(prefix + last, n + 1, cols, cell)
  {
    forall i: nat, j: nat | i < n + 1 && j < cols
      ensures CellAt(prefix + last, i, j, cols, cell)
    {
      if i < n {
        assert CellAt(prefix, i, j, cols, cell);
        RowStartMonotone(i, n, cols);
        assert (prefix + last)[RowStart(i, cols) + j] == prefix[RowStart(i, cols) + j];
      } else {
        assert (prefix + last)[RowStart(n, cols) + j] == last[j];
      }
    }
    assert |prefix + last| == RowStart(n + 1, cols);
  }

  /** The registry of a cell grid is row-major. */
  lemma {:induction false} CellGridRegistry(rows: nat, cols: nat, cell: (nat, nat) -> Button)
    ensures RowMajor(Registered(CellGrid(rows, cols, cell)), rows, cols, cell)
  {
    if rows > 0 {
      CellGridSnoc(rows, cols, cell);
      RegisteredSnoc(CellGrid(rows - 1, cols, cell), CellRow(rows - 1, cols, cell));
      CellGridRegistry(rows - 1, cols, cell);
      CellRowButtons(rows - 1, cols, cell);
      RowMajorSnoc(Registered(CellGrid(rows - 1, cols, cell)), ButtonsOf(CellRow(rows - 1, cols, cell)), rows - 1, cols, cell);
    }
  }

  /**
   * The discovery builder registers rows * cols buttons in row-major order:
   * cell (i, j) at position i * cols + j.
   */
  lemma {:induction false} DiscoveryRegistry(rows: nat, cols: nat)
    ensures |Registered(DiscoveryNodes(rows, cols))| == rows * cols
    ensures forall i: nat, j: nat :: i < rows && j < cols ==>
      AtIndex(Registered(DiscoveryNodes(rows, cols)), i * cols + j, DiscoveryButton(i, j))
  {
    DiscoveryCount(rows, cols);
    forall i: nat, j: nat | i < rows && j < cols
      ensures AtIndex(Registered(DiscoveryNodes(rows, cols)), i * cols + j, DiscoveryButton(i, j))
    {
      DiscoveryCell(rows, cols, i, j);
    }
  }

  /** `s` holds `b` at index `k`. */
  predicate AtIndex(s: seq<Button>, k: int, b: Button) {
    0 <= k < |s| && s[k] == b
  }

  /** The discovery registry has one button per cell. */
  lemma DiscoveryCount(rows: nat, cols: nat)
    ensures |Registered(DiscoveryNodes(rows, cols))| == rows * cols
  {
    CellGridRegistry(rows, cols, DiscoveryButton);
    RowStartIsProduct(rows, cols);
  }

  /** Cell (i, j) of the discovery registry, at position i * cols + j. */
  lemma DiscoveryCell(rows: nat, cols: nat, i: nat, j: nat)
    requires i < rows && j < cols
    ensures |Registered(DiscoveryNodes(rows, cols))| == rows * cols
    ensures AtIndex(Registered(DiscoveryNodes(rows, cols)), i * cols + j, DiscoveryButton(i, j))
  {
    var bs := Registered(DiscoveryNodes(rows, cols));
    CellGridRegistry(rows, cols, DiscoveryButton);
    assert CellAt(bs, i, j, cols, DiscoveryButton);
    RowStartIsProduct(i, cols);
    RowStartIsProduct(rows, cols);
  }

  /** Every button of a cell grid is one of its cells. */
  lemma {:induction false} CellGridMembers(rows: nat, cols: nat, cell: (nat, nat) -> Button)
    ensures forall b :: b in Registered(CellGrid(rows, cols, cell)) ==>
      exists i: nat, j: nat :: i < rows && j < cols && b == cell(i, j)
  {
    if rows > 0 {
      var prev := CellGrid(rows - 1, cols, cell);
      var last := CellRow(rows - 1, cols, cell);
      CellGridSnoc(rows, cols, cell);
      RegisteredSnoc(prev, last);
      CellGridMembers(rows - 1, cols, cell);
      CellRowButtons(rows - 1, cols, cell);
      forall b | b in Registered(CellGrid(rows, cols, cell))
        ensures exists i: nat, j: nat :: i < rows && j < cols && b == cell(i, j)
      {
        if b in Registered(prev) {
          var i: nat, j: nat :| i < rows - 1 && j < cols && b == cell(i, j);
          assert i < rows;
        } else {
          assert b in ButtonsOf(last);
          var j :| 0 <= j < cols && ButtonsOf(last)[j] == b;
          assert b == cell(rows - 1, j);
        }
      }
    }
  }

  /** One step of the cell-row builder. */
  lemma CellRowStep(i: nat, j: nat, cell: (nat, nat) -> Button, hbox: seq<Node>)
    requires hbox == CellRow(i, j, cell)
    ensures hbox + [Key(cell(i, j))] == CellRow(i, j + 1, cell)
    ensures ButtonsOf(hbox + [Key(cell(i, j))]) == ButtonsOf(hbox) + [cell(i, j)]
  {
    ButtonsOfSnoc(hbox, Key(cell(i, j)));
  }

  /** One step of the cell-grid builder. */
  lemma CellGridStep(i: nat, cols: nat, cell: (nat, nat) -> Button, vbox: seq<seq<Node>>, hbox: seq<Node>)
    requires vbox == CellGrid(i, cols, cell) && hbox == CellRow(i, cols, cell)
    ensures vbox + [hbox] == CellGrid(i + 1, cols, cell)
  {
    CellGridSnoc(i + 1, cols, cell);
  }

  /** One step of the mousemat builder. */
  lemma MousematStep(i: nat, hbox: seq<Node>)
    requires hbox == MousematNodes(i)
    ensures hbox + [Key(MousematButton(i))] == MousematNodes(i + 1)
    ensures ButtonsOf(hbox + [Key(MousematButton(i))]) == ButtonsOf(hbox) + [MousematButton(i)]
  {
    ButtonsOfSnoc(hbox, Key(MousematButton(i)));
  }
}
