/** The plotting side of `MplWidget`: the colour and style lookups, the y-range
    mask applied before a curve is cut into segments, and the bookkeeping of
    the plotted functions, kept in two parallel lists (`current_functions`
    and the lines shown in `function_list`).

    Evaluating an expression over the x grid (`eval` under numpy) and drawing
    it with matplotlib are not modelled: whether plotting a function raises is
    the parameter `plottable`, and a sampled curve is given as its x values and
    its y values (`None` for NaN). */
module PlotWidget {
  import opened Wrappers
  import opened Text
  import opened Segments

  // ---------------------------------------------------------------------------
  // Lookups

  /** The expression the window plots when it opens. */
  const InitialText: string := "x**2"

  /** `on_plot` takes the initial text as it is: it is not blank and
      stripping leaves it unchanged. */
  lemma InitialTextStripped()
    ensures Strip(InitialText) == InitialText != []
  {
    StripStripped(InitialText);
  }

  /** `get_color_name`'s table: colour value to the name shown in the colour box. */
  const ColorNames: map<string, string> :=
    map["blue" := "Синий", "red" := "Красный", "green" := "Зеленый",
        "black" := "Черный", "purple" := "Фиолетовый", "orange" := "Оранжевый"]

  /** `on_color_changed`'s table: name in the colour box to colour value. */
  const ColorValues: map<string, string> :=
    map["Синий" := "blue", "Красный" := "red", "Зеленый" := "green",
        "Черный" := "black", "Фиолетовый" := "purple", "Оранжевый" := "orange"]

  /** `style_map`: name in the style box to matplotlib line style. */
  const LineStyles: map<string, string> :=
    map["Сплошная" := "-", "Пунктирная" := "--", "Точка-штрих" := "-.", "Точечная" := ":"]

  /** `get_color_name`: a known colour value gets its name, any other value is
      shown as it is. */
  function ColorName(value: string): (name: string)
    ensures value !in ColorNames ==> name == value
    ensures value in ColorNames ==> name in ColorValues && ColorValue(name) == value
  {
    if value in ColorNames then ColorNames[value] else value
  }

  /** The colour `on_color_changed` selects for a name: unknown names give blue. */
  function ColorValue(name: string): (value: string)
    ensures name !in ColorValues ==> value == "blue"
    ensures value in ColorNames
  {
    if name in ColorValues then ColorValues[name] else "blue"
  }

  /** The matplotlib line style for a style name: unknown names draw solid. */
  function LineStyle(style: string): (linestyle: string)
    ensures style !in LineStyles ==> linestyle == "-"
    ensures linestyle in {"-", "--", "-.", ":"}
  {
    if style in LineStyles then LineStyles[style] else "-"
  }

  /** The two colour tables are inverse to each other on the six named colours. */
  lemma ColorTablesInverse()
    ensures forall value :: value in ColorNames ==> ColorValue(ColorName(value)) == value
    ensures forall name :: name in ColorValues ==> ColorName(ColorValue(name)) == name
  {
  }

  // ---------------------------------------------------------------------------
  // Clipping and drawing

  /** One sample after the y-range mask: a value below `yMin` or above `yMax`
      becomes NaN; NaN stays NaN (it compares false with both bounds). */
  function Clip(y: Option<real>, yMin: real, yMax: real): (c: Option<real>)
    ensures c.None? <==> (y.None? || y.value < yMin || yMax < y.value)
    ensures c.Some? ==> c == y && yMin <= c.value <= yMax
  {
    match y
    case None => None
    case Some(v) => if v < yMin || v > yMax then None else y
  }

  /** Masking twice with the same range changes nothing more. */
  lemma ClipIdempotent(y: Option<real>, yMin: real, yMax: real)
    ensures Clip(Clip(y, yMin, yMax), yMin, yMax) == Clip(y, yMin, yMax)
  {
  }

  /** The y values of a whole curve after the mask. */
  function ClipAll(ys: seq<Option<real>>, yMin: real, yMax: real): (r: seq<Option<real>>)
    ensures |r| == |ys|
  {
    seq(|ys|, i requires 0 <= i < |ys| => Clip(ys[i], yMin, yMax))
  }

  /** `y_clipped = np.copy(y)`, then `y_clipped[y_clipped < y_min] = nan`, then
      `y_clipped[y_clipped > y_max] = nan`, each pass in place on the copy. */
  method ClipToRange(y: array<Option<real>>, yMin: real, yMax: real) returns (clipped: array<Option<real>>)
    ensures fresh(clipped)
    ensures clipped[..] == ClipAll(y[..], yMin, yMax)
  {
    clipped := new Option<real>[y.Length];
    forall i | 0 <= i < y.Length {
      clipped[i] := y[i];
    }
    for i := 0 to clipped.Length
      invariant forall j :: 0 <= j < i ==>
        clipped[j] == (if y[j].Some? && y[j].value < yMin then None else y[j])
      invariant forall j :: i <= j < clipped.Length ==> clipped[j] == y[j]
    {
      if clipped[i].Some? && clipped[i].value < yMin {
        clipped[i] := None;
      }
    }
    for i := 0 to clipped.Length
      invariant forall j :: 0 <= j < i ==> clipped[j] == Clip(y[j], yMin, yMax)
      invariant forall j :: i <= j < clipped.Length ==>
        clipped[j] == (if y[j].Some? && y[j].value < yMin then None else y[j])
    {
      if clipped[i].Some? && clipped[i].value > yMax {
        clipped[i] := None;
      }
    }
  }

  /** The segments that get drawn: those with more than one point, in order. */
  function Drawn(segments: seq<Segment>): (r: seq<Segment>)
    ensures forall s :: s in r <==> s in segments && |s.xs| > 1
    ensures |r| <= |segments|
  {
    if segments == [] then []
    else
      var last := segments[|segments| - 1];
      Drawn(segments[..|segments| - 1]) + (if |last.xs| > 1 then [last] else [])
  }

  /** `plot_single_function` without the drawing: the line style it uses and
      the segments it hands to `ax.plot`, one call per segment. */
  method PlotSingleFunction(x: seq<real>, y: array<Option<real>>, style: string, yMin: real, yMax: real)
    returns (linestyle: string, drawn: seq<Segment>)
    requires |x| <= y.Length
    ensures linestyle == LineStyle(style)
    ensures drawn == Drawn(Split(x, ClipAll(y[..], yMin, yMax)))
  {
    linestyle := LineStyle(style);
    var clipped := ClipToRange(y, yMin, yMax);
    var segments := SplitIntoSegments(x, clipped[..]);
    drawn := [];
    for k := 0 to |segments|
      invariant drawn == Drawn(segments[..k])
    {
      assert segments[..k + 1][..k] == segments[..k];
      if |segments[k].xs| > 1 {
        drawn := drawn + [segments[k]];
      }
    }
    assert segments[..|segments|] == segments;
  }

  /** Values taken from samples that all lie in the range lie in the range. */
  lemma {:induction false} DefinedValuesInRange(ys: seq<Option<real>>, lo: nat, hi: nat, yMin: real, yMax: real)
    requires lo <= hi <= |ys|
    requires forall i :: 0 <= i < |ys| && ys[i].Some? ==> yMin <= ys[i].value <= yMax
    ensures forall v :: v in DefinedValues(ys, lo, hi) ==> yMin <= v <= yMax
  {
    if hi > lo {
      DefinedValuesInRange(ys, lo, hi - 1, yMin, yMax);
    }
  }

  /** Every point that is drawn lies inside the y range, and every drawn
      segment has at least two points. */
  lemma DrawnWithinRange(x: seq<real>, ys: seq<Option<real>>, yMin: real, yMax: real)
    requires |x| <= |ys|
    ensures forall s :: s in Drawn(Split(x, ClipAll(ys, yMin, yMax))) ==>
      |s.xs| > 1 && forall v :: v in s.ys ==> yMin <= v <= yMax
  {
    var clipped := ClipAll(ys, yMin, yMax);
    var segments := Split(x, clipped);
    forall s | s in Drawn(segments)
      ensures forall v :: v in s.ys ==> yMin <= v <= yMax
    {
      var k :| 0 <= k < |segments| && segments[k] == s;
      SplitPrefixAt(x, clipped, |x|, k);
      var run := Runs(clipped, |x|)[k];
      DefinedValuesInRange(clipped, run.0, run.1, yMin, yMax);
    }
  }

  // ---------------------------------------------------------------------------
  // The plotted functions

  /** One entry of `current_functions`: `{expression, color, style, alpha}`. */
  datatype FunctionInfo = FunctionInfo(expression: string, color: string, style: string, alpha: real)

  /** One line of `function_list`, `<expression> (цвет: <colour name>, стиль: <style>)`,
      kept as its three parts. */
  datatype ListLine = ListLine(expression: string, colorName: string, style: string)

  /** The line the list shows for a plotted function. */
  function Describe(info: FunctionInfo): (line: ListLine)
    ensures line.expression == info.expression && line.style == info.style
    ensures info.color in ColorNames ==> ColorValue(line.colorName) == info.color
    ensures info.color !in ColorNames ==> line.colorName == info.color
  {
    ListLine(info.expression, ColorName(info.color), info.style)
  }

  /** The first function whose plotting raises, if any. */
  function FirstFailure(fs: seq<FunctionInfo>, plottable: FunctionInfo -> bool): (r: Option<nat>)
    ensures r.None? <==> forall i :: 0 <= i < |fs| ==> plottable(fs[i])
    ensures r.Some? ==> r.value < |fs| && !plottable(fs[r.value])
                        && forall i :: 0 <= i < r.value ==> plottable(fs[i])
    decreases |fs|
  {
    if fs == [] then None
    else if !plottable(fs[0]) then Some(0)
    else
      match FirstFailure(fs[1..], plottable)
      case None => None
      case Some(i) => Some(i + 1)
  }

  /** `s` without its entry at `i`. */
  function DropAt<T>(s: seq<T>, i: nat): (r: seq<T>)
    requires i < |s|
    ensures |r| == |s| - 1
    ensures forall k :: 0 <= k < |r| ==> r[k] == if k < i then s[k] else s[k + 1]
  {
    s[..i] + s[i + 1..]
  }

  /** The functions left after `redraw_all`: with an empty x range nothing is
      drawn and nothing changes; otherwise the first function that fails to
      plot is dropped and the redraw stops there. */
  function Redrawn(fs: seq<FunctionInfo>, plottable: FunctionInfo -> bool, xMin: real, xMax: real): (r: seq<FunctionInfo>)
    ensures (xMin >= xMax || forall i :: 0 <= i < |fs| ==> plottable(fs[i])) ==> r == fs
    ensures xMin < xMax && FirstFailure(fs, plottable).Some? ==>
      r == DropAt(fs, FirstFailure(fs, plottable).value)
  {
    if xMin >= xMax then fs
    else
      match FirstFailure(fs, plottable)
      case None => fs
      case Some(i) => DropAt(fs, i)
  }

  /** Redrawing a single function over a non-empty x range keeps it exactly
      when it can be plotted. */
  lemma RedrawnSingle(info: FunctionInfo, plottable: FunctionInfo -> bool, xMin: real, xMax: real)
    requires xMin < xMax
    ensures Redrawn([info], plottable, xMin, xMax) == if plottable(info) then [info] else []
  {
    if !plottable(info) {
      assert FirstFailure([info], plottable) == Some(0);
      assert DropAt([info], 0) == [];
    }
  }

  /** The functions after `update_selected_function_style` has restyled the
      selected rows with the current colour, style and opacity: every
      expression and every unselected entry is kept, and every selected entry
      gets exactly the current settings. */
  function Restyled(fs: seq<FunctionInfo>, rows: seq<nat>, color: string, style: string, alpha: real): (r: seq<FunctionInfo>)
    ensures |r| == |fs|
    ensures forall i :: 0 <= i < |fs| ==> r[i].expression == fs[i].expression
    ensures forall i :: 0 <= i < |fs| && i !in rows ==> r[i] == fs[i]
    ensures forall i :: 0 <= i < |fs| && i in rows ==> r[i] == FunctionInfo(fs[i].expression, color, style, alpha)
  {
    seq(|fs|, i requires 0 <= i < |fs| =>
      if i in rows then fs[i].(color := color, style := style, alpha := alpha) else fs[i])
  }

  /** The entries of `s` whose index is not in `removed`, in order. */
  function Without<T>(s: seq<T>, removed: set<nat>): (r: seq<T>)
    ensures |r| <= |s|
  {
    if s == [] then []
    else Without(s[..|s| - 1], removed) + (if |s| - 1 in removed then [] else [s[|s| - 1]])
  }

  /** Removing nothing keeps everything. */
  lemma {:induction false} WithoutNothing<T>(s: seq<T>)
    ensures Without(s, {}) == s
  {
    if s != [] {
      WithoutNothing(s[..|s| - 1]);
    }
  }

  lemma {:induction false} WithoutAgrees<T>(s: seq<T>, a: set<nat>, b: set<nat>)
    requires forall i: nat :: i < |s| ==> (i in a <==> i in b)
    ensures Without(s, a) == Without(s, b)
  {
    if s != [] {
      WithoutAgrees(s[..|s| - 1], a, b);
    }
  }

  /** Dropping an entry before an appended tail leaves the tail in place. */
  lemma DropAtAppend<T>(w: seq<T>, tail: seq<T>, k: nat)
    requires k < |w|
    ensures DropAt(w + tail, k) == DropAt(w, k) + tail
  {
    assert (w + tail)[..k] == w[..k];
    assert (w + tail)[k + 1..] == w[k + 1..] + tail;
  }

  /** The last entry of `s` is kept or removed on its own. */
  lemma WithoutLast<T>(s: seq<T>, removed: set<nat>)
    requires s != []
    ensures Without(s, removed)
         == Without(s[..|s| - 1], removed) + (if |s| - 1 in removed then [] else [s[|s| - 1]])
  {
  }

  /** Where an entry that is still present now sits: after the entries before
      it that are still present. Removing it there is removing its index. */
  lemma {:induction false} RemoveRow<T>(s: seq<T>, removed: set<nat>, r: nat)
    requires r < |s| && r !in removed
    ensures |Without(s[..r], removed)| < |Without(s, removed)|
    ensures Without(s, removed)[|Without(s[..r], removed)|] == s[r]
    ensures DropAt(Without(s, removed), |Without(s[..r], removed)|) == Without(s, removed + {r})
  {
    var n := |s|;
    var init := s[..n - 1];
    WithoutLast(s, removed);
    WithoutLast(s, removed + {r});
    if r == n - 1 {
      assert s[..r] == init;
      WithoutAgrees(init, removed, removed + {r});
    } else {
      RemoveRow(init, removed, r);
      assert init[..r] == s[..r];
      var w := Without(init, removed);
      var k := |Without(s[..r], removed)|;
      var tail := if n - 1 in removed then [] else [s[n - 1]];
      assert Without(s, removed) == w + tail;
      assert Without(s, removed + {r}) == Without(init, removed + {r}) + tail;
      DropAtAppend(w, tail, k);
    }
  }

  /** Dropping the same row from the functions and from the list lines that
      describe them leaves lines that still describe the functions. */
  lemma DropKeepsDescribed(fs: seq<FunctionInfo>, lines: seq<ListLine>, i: nat)
    requires |lines| == |fs| && i < |fs|
    requires forall k :: 0 <= k < |fs| ==> lines[k] == Describe(fs[k])
    ensures |DropAt(lines, i)| == |DropAt(fs, i)|
    ensures forall k :: 0 <= k < |DropAt(fs, i)| ==> DropAt(lines, i)[k] == Describe(DropAt(fs, i)[k])
  {
  }

  /** The widget's state: the plotted functions, the lines the list shows,
      the settings new and restyled functions get, the input field and the x
      range. */
  class MplWidget {
    var currentFunctions: seq<FunctionInfo>
    var functionList: seq<ListLine>
    var currentColor: string
    var currentStyle: string
    var currentAlpha: real
    var input: string
    var xMin: real
    var xMax: real

    /** The list shows one line per plotted function, in the same order. */
    ghost predicate Valid()
      reads this`currentFunctions, this`functionList
    {
      && |functionList| == |currentFunctions|
      && forall i :: 0 <= i < |currentFunctions| ==> functionList[i] == Describe(currentFunctions[i])
    }

    /** `__init__`: blue, solid, opaque, x from -10 to 10, and the initial plot of
        `x**2`, which stays in the list when it can be plotted. The source puts
        the text in the input and calls `on_plot`; since that text is already
        stripped and not blank (`InitialTextStripped`), this is the branch of
        `OnPlot` that `PlotExpression` performs, after which the input is empty. */
    constructor(plottable: FunctionInfo -> bool)
      ensures Valid()
      ensures currentColor == "blue" && currentStyle == "Сплошная" && currentAlpha == 1.0
      ensures xMin == -10.0 && xMax == 10.0 && input == ""
      ensures var first := FunctionInfo(InitialText, "blue", "Сплошная", 1.0);
        currentFunctions == if plottable(first) then [first] else []
    {
      currentFunctions := [];
      functionList := [];
      currentColor := "blue";
      currentStyle := "Сплошная";
      currentAlpha := 1.0;
      xMin := -10.0;
      xMax := 10.0;
      input := [];
      new;
      ghost var first := FunctionInfo(InitialText, currentColor, currentStyle, currentAlpha);
      assert [] + [first] == [first];
      PlotExpression(InitialText, plottable);
      RedrawnSingle(first, plottable, xMin, xMax);
    }

    /** `redraw_all`, as far as the lists are concerned: the first function
        whose plotting raises is removed from both lists, and the redraw ends. */
    method RedrawAll(plottable: FunctionInfo -> bool)
      requires Valid()
      modifies this`currentFunctions, this`functionList
      ensures Valid()
      ensures currentFunctions == Redrawn(old(currentFunctions), plottable, xMin, xMax)
    {
      if xMin >= xMax {
        return;
      }
      for i := 0 to |currentFunctions|
        invariant currentFunctions == old(currentFunctions) && functionList == old(functionList)
        invariant forall j :: 0 <= j < i ==> plottable(currentFunctions[j])
      {
        if !plottable(currentFunctions[i]) {
          currentFunctions := DropAt(currentFunctions, i);
          functionList := DropAt(functionList, i);
          return;
        }
      }
    }

    /** A new value in the x-minimum spin box, which is bounded to
        [-1000, 1000], followed by the `redraw_all` its `valueChanged` signal
        triggers. The signal fires only when the value differs from the current
        one. A minimum at or above the maximum redraws nothing. */
    method OnXMinChanged(value: real, plottable: FunctionInfo -> bool)
      requires Valid()
      requires -1000.0 <= value <= 1000.0
      requires value != xMin
      modifies this`xMin, this`currentFunctions, this`functionList
      ensures Valid()
      ensures xMin == value
      ensures currentFunctions == Redrawn(old(currentFunctions), plottable, value, xMax)
    {
      xMin := value;
      RedrawAll(plottable);
    }

    /** The same for the x-maximum spin box. */
    method OnXMaxChanged(value: real, plottable: FunctionInfo -> bool)
      requires Valid()
      requires -1000.0 <= value <= 1000.0
      requires value != xMax
      modifies this`xMax, this`currentFunctions, this`functionList
      ensures Valid()
      ensures xMax == value
      ensures currentFunctions == Redrawn(old(currentFunctions), plottable, xMin, value)
    {
      xMax := value;
      RedrawAll(plottable);
    }

    /** `on_plot`: blank input does nothing; otherwise the stripped text is
        added to both lists with the current settings, everything is redrawn
        and the input is cleared. */
    method OnPlot(plottable: FunctionInfo -> bool)
      requires Valid()
      modifies this`currentFunctions, this`functionList, this`input
      ensures Valid()
      ensures input == if Strip(old(input)) == [] then old(input) else []
      ensures currentFunctions == if Strip(old(input)) == [] then old(currentFunctions)
        else Redrawn(old(currentFunctions) + [FunctionInfo(Strip(old(input)), currentColor, currentStyle, currentAlpha)],
                     plottable, xMin, xMax)
    {
      var expression := Strip(input);
      if expression == [] {
        return;
      }
      PlotExpression(expression, plottable);
      input := [];
    }

    /** The part of `on_plot` after the blank check: the function is added to
        both lists with the current settings and everything is redrawn. */
    method PlotExpression(expression: string, plottable: FunctionInfo -> bool)
      requires Valid()
      modifies this`currentFunctions, this`functionList
      ensures Valid()
      ensures currentFunctions == Redrawn(old(currentFunctions)
        + [FunctionInfo(expression, currentColor, currentStyle, currentAlpha)], plottable, xMin, xMax)
    {
      var info := FunctionInfo(expression, currentColor, currentStyle, currentAlpha);
      currentFunctions := currentFunctions + [info];
      functionList := functionList + [ListLine(expression, ColorName(currentColor), currentStyle)];
      RedrawAll(plottable);
    }

    /** `on_color_changed`: the colour of the name picked in the colour box. */
    method OnColorChanged(name: string)
      modifies this`currentColor
      ensures currentColor == ColorValue(name)
      ensures currentColor in ColorNames
    {
      currentColor := if name in ColorValues then ColorValues[name] else "blue";
    }

    /** `update_selected_function_style`: with nothing selected only a warning
        is shown; otherwise every selected row in range takes the current
        colour, style and opacity, its line is rewritten, and all is redrawn. */
    method UpdateSelectedFunctionStyle(selected: seq<nat>, plottable: FunctionInfo -> bool)
      requires Valid()
      modifies this`currentFunctions, this`functionList
      ensures Valid()
      ensures selected == [] ==> currentFunctions == old(currentFunctions)
      ensures selected != [] ==>
        currentFunctions == Redrawn(Restyled(old(currentFunctions), selected, currentColor, currentStyle, currentAlpha),
                                    plottable, xMin, xMax)
    {
      if selected == [] {
        return;
      }
      for j := 0 to |selected|
        invariant Valid()
        invariant currentFunctions == Restyled(old(currentFunctions), selected[..j], currentColor, currentStyle, currentAlpha)
      {
        var index := selected[j];
        if 0 <= index < |currentFunctions| {
          currentFunctions := currentFunctions[index := currentFunctions[index].(color := currentColor, style := currentStyle, alpha := currentAlpha)];
          functionList := functionList[index := ListLine(currentFunctions[index].expression, ColorName(currentColor), currentStyle)];
        }
        assert forall i :: i in selected[..j + 1] <==> i in selected[..j] || i == selected[j];
      }
      assert selected[..|selected|] == selected;
      RedrawAll(plottable);
    }

    /** `remove_selected_function`: with nothing selected only a warning is
        shown; otherwise the selected items are removed from both lists, last
        selected first, each at the row it occupies at that moment, and all is
        redrawn. `selected` holds the rows of the selected items when the
        button is pressed. */
    method RemoveSelectedFunction(selected: seq<nat>, plottable: FunctionInfo -> bool)
      requires Valid()
      modifies this`currentFunctions, this`functionList
      ensures Valid()
      ensures selected == [] ==> currentFunctions == old(currentFunctions)
      ensures selected != [] ==>
        currentFunctions == Redrawn(Without(old(currentFunctions), set r | r in selected), plottable, xMin, xMax)
    {
      if selected == [] {
        return;
      }
      var original := currentFunctions;
      var removed: set<nat> := {};
      WithoutNothing(original);
      for j := |selected| downto 0
        invariant Valid()
        invariant currentFunctions == Without(original, removed)
        invariant forall r: nat :: r in removed <==> r < |original| && r in selected[j..]
      {
        var r := selected[j];
        removed := RemoveItem(original, removed, r);
        assert forall q :: q in selected[j..] <==> q == r || q in selected[j + 1..];
      }
      WithoutAgrees(original, removed, set r | r in selected);
      RedrawAll(plottable);
    }

    /** One step of `remove_selected_function`: the item first shown at row
        `r` is looked up where it sits now (`function_list.row(item)`, -1 once
        it is gone or when it never was a row) and, when found, dropped from
        both lists. `removed` holds the original rows already dropped. */
    method RemoveItem(original: seq<FunctionInfo>, removed: set<nat>, r: nat) returns (now: set<nat>)
      requires Valid()
      requires currentFunctions == Without(original, removed)
      modifies this`currentFunctions, this`functionList
      ensures Valid()
      ensures now == if r < |original| then removed + {r} else removed
      ensures currentFunctions == Without(original, now)
    {
      now := removed;
      var index: int := -1;
      if r < |original| && r !in removed {
        RemoveRow(original, removed, r);
        index := |Without(original[..r], removed)|;
      }
      if 0 <= index < |currentFunctions| {
        DropKeepsDescribed(currentFunctions, functionList, index);
        currentFunctions := DropAt(currentFunctions, index);
        functionList := DropAt(functionList, index);
        now := removed + {r};
      }
    }

    /** `clear_all_functions`: both lists emptied, then a redraw (which has
        nothing left to drop). */
    method ClearAllFunctions(plottable: FunctionInfo -> bool)
      requires Valid()
      modifies this`currentFunctions, this`functionList
      ensures Valid()
      ensures currentFunctions == [] && functionList == []
    {
      currentFunctions := [];
      functionList := [];
      RedrawAll(plottable);
    }
  }

  /** Plotting new text whose every function can be drawn over a non-empty x
      range adds exactly one entry, at the end. */
  lemma PlotAppendsOne(fs: seq<FunctionInfo>, info: FunctionInfo, plottable: FunctionInfo -> bool, xMin: real, xMax: real)
    requires forall i :: 0 <= i < |fs| ==> plottable(fs[i])
    requires plottable(info)
    ensures Redrawn(fs + [info], plottable, xMin, xMax) == fs + [info]
  {
    assert forall i :: 0 <= i < |fs + [info]| ==> plottable((fs + [info])[i]);
  }

  /** A redraw never adds an entry and removes at most one. */
  lemma RedrawDropsAtMostOne(fs: seq<FunctionInfo>, plottable: FunctionInfo -> bool, xMin: real, xMax: real)
    ensures |fs| - 1 <= |Redrawn(fs, plottable, xMin, xMax)| <= |fs|
    ensures forall f :: f in Redrawn(fs, plottable, xMin, xMax) ==> f in fs
  {
  }
}
