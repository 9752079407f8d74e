/**
  `preview/terminal/ui/mod.rs`: the terminal preview's key dispatch, its layout
  arithmetic and its event loop. The state operations it calls (`move_up`,
  `move_down`, `prev_render_type`, `next_render_type`, `update_rect`) are not part of
  this model: a `UI` records the calls it makes, in order, and the terminal operations
  it attempts. Widget drawing and the `tui` layout solver are not modelled; the canvas
  rectangle the layout yields is a parameter, and so are the terminal's answers to
  `setup`, each draw and `shutdown`.
*/
module TerminalUi {
  import opened Wrappers
  import FontMod
  import TuiState
  import Cache
  import TerminalRender

  datatype OnEventResult = ReDraw | Continue | Exit

  datatype KeyCode = Char(c: char) | Up | Down | Left | Right | OtherKey

  datatype Modifier = Shift | Control | Alt | OtherModifier

  datatype KeyEvent = KeyEvent(code: KeyCode, modifiers: set<Modifier>)

  datatype TerminalEvent = Tick | Key(key: KeyEvent)

  /** A call into the state, whose effect is not modelled. */
  datatype StateCall = MoveUp | MoveDown | PrevRenderType | NextRenderType | UpdateRect(width: nat, height: nat)

  /** What the loop does to the terminal: `setup`, one `terminal.draw`, `shutdown`. */
  datatype TermOp = Setup | Draw | Shutdown

  // ------------------------------------------------------------ key dispatch

  /** `on_event`: the outcome and the state calls it makes. An error from the event
      stream is passed on by `?`. */
  function OnEventSpec<E>(event: Result<TerminalEvent, E>): (Result<OnEventResult, E>, seq<StateCall>)
  {
    match event
    case Err(e) => (Err(e), [])
    case Ok(Tick) => (Ok(Continue), [])
    case Ok(Key(key)) =>
      if Alt in key.modifiers || Control in key.modifiers then (Ok(Continue), [])
      else
        match key.code
        case Char(c) =>
          if c == 'q' then (Ok(Exit), [])
          else if c == 'k' then (Ok(ReDraw), [MoveUp])
          else if c == 'j' then (Ok(ReDraw), [MoveDown])
          else if c == 'h' then (Ok(ReDraw), [PrevRenderType])
          else if c == 'l' then (Ok(ReDraw), [NextRenderType])
          else (Ok(Continue), [])
        case Up => (Ok(ReDraw), [MoveUp])
        case Down => (Ok(ReDraw), [MoveDown])
        case Left => (Ok(ReDraw), [PrevRenderType])
        case Right => (Ok(ReDraw), [NextRenderType])
        case OtherKey => (Ok(Continue), [])
  }

  /** A key that moves the selection or changes the render type, named by its call. */
  function Binding(code: KeyCode): Option<StateCall>
  {
    match code
    case Up => Some(MoveUp)
    case Down => Some(MoveDown)
    case Left => Some(PrevRenderType)
    case Right => Some(NextRenderType)
    case Char(c) =>
      if c == 'k' then Some(MoveUp) else if c == 'j' then Some(MoveDown)
      else if c == 'h' then Some(PrevRenderType) else if c == 'l' then Some(NextRenderType)
      else None
    case OtherKey => None
  }

  /** The dispatch table: a tick, an event stream error and any key held with Alt or
      Control touch no state; `q` exits; a bound key makes exactly its one call and asks
      for a redraw; any other key continues. A redraw happens exactly when one call was
      made. */
  lemma OnEventTable<E>(event: Result<TerminalEvent, E>)
    ensures event.Err? ==> OnEventSpec(event) == (Err(event.error), [])
    ensures event == Ok(Tick) ==> OnEventSpec(event) == (Ok(Continue), [])
    ensures event.Ok? && event.value.Key? && (Alt in event.value.key.modifiers || Control in event.value.key.modifiers) ==>
      OnEventSpec(event) == (Ok(Continue), [])
    ensures event.Ok? && event.value.Key? && Alt !in event.value.key.modifiers && Control !in event.value.key.modifiers ==>
      OnEventSpec(event) ==
        if event.value.key.code == Char('q') then (Ok(Exit), [])
        else match Binding(event.value.key.code)
          case Some(call) => (Ok(ReDraw), [call])
          case None => (Ok(Continue), [])
    ensures OnEventSpec(event).0 == Ok(ReDraw) <==> |OnEventSpec(event).1| == 1
    ensures OnEventSpec(event).0 != Ok(ReDraw) ==> OnEventSpec(event).1 == []
  {
  }

  // ------------------------------------------------------------ layout arithmetic

  /** `a.saturating_sub(b)` on unsigned integers. */
  function SaturatingSub(a: nat, b: nat): nat
  {
    if a >= b then a - b else 0
  }

  /** `self.state.name_width_max().min(24) as u16`. */
  function ListWidth(nameWidthMax: nat): nat
  {
    if nameWidthMax <= 24 then nameWidthMax else 24
  }

  /** The list is as wide as the widest name, but at most 24 columns, so the cast to
      `u16` never truncates. */
  lemma ListWidthBounded(nameWidthMax: nat)
    ensures ListWidth(nameWidthMax) <= 24 && ListWidth(nameWidthMax) <= nameWidthMax
    ensures ListWidth(nameWidthMax) == nameWidthMax || ListWidth(nameWidthMax) == 24
    ensures ListWidth(nameWidthMax) < 0x1_0000
  {
  }

  /** The preview area inside the canvas border: two less on each axis, never below 0. */
  function InnerSize(canvasWidth: nat, canvasHeight: nat): (nat, nat)
  {
    (SaturatingSub(canvasWidth, 2), SaturatingSub(canvasHeight, 2))
  }

  lemma InnerSizeFits(canvasWidth: nat, canvasHeight: nat)
    ensures var (w, h) := InnerSize(canvasWidth, canvasHeight);
      (canvasWidth >= 2 ==> w + 2 == canvasWidth) && (canvasWidth < 2 ==> w == 0) &&
      (canvasHeight >= 2 ==> h + 2 == canvasHeight) && (canvasHeight < 2 ==> h == 0)
  {
  }

  /** The number of blank lines above the paragraph preview. */
  function PaddingLines(areaHeight: nat, contentHeight: nat): nat
  {
    SaturatingSub(SaturatingSub(areaHeight, 2), contentHeight) / 2
  }

  /** The padding centres the text vertically inside the border, rounding down: what is
      left below differs from the padding above by at most one line; with no room,
      there is no padding. */
  lemma PaddingCentres(areaHeight: nat, contentHeight: nat)
    ensures var p := PaddingLines(areaHeight, contentHeight);
      (contentHeight + 2 <= areaHeight ==>
        var below := areaHeight - 2 - contentHeight - p;
        p <= below <= p + 1) &&
      (contentHeight + 2 >= areaHeight ==> p == 0)
  {
  }

  /** What `draw_canvas` shows: a braille canvas of the rendered rows, with its bounds,
      or a paragraph: blank lines, then the rendered text or the error message. */
  datatype Preview =
    | CanvasPreview(xMax: int, yMax: int, rows: seq<seq<char>>)
    | ParagraphPreview(padding: string, text: string)

  function Newlines(n: nat): (s: string)
    ensures |s| == n && forall k | 0 <= k < n :: s[k] == '\n'
  {
    if n == 0 then [] else "\n" + Newlines(n - 1)
  }

  /** `draw_canvas` with the render type, the render result, the size last set by
      `update_rect` and the height of the area it draws in. */
  function DrawCanvas(rt: Cache.RenderType, result: Result<seq<seq<char>>, string>,
                      rect: (nat, nat), areaHeight: nat): Preview
  {
    if rt == Cache.Mono && result.Ok? then
      CanvasPreview(rect.0 * 2 - 1, rect.1 * 4 - 1, result.value)
    else
      var (height, text) := match result
        case Ok(rows) => (TerminalRender.Height(rows), TerminalRender.Text(rows))
        case Err(err) => (|TerminalRender.Lines(err)|, err);
      ParagraphPreview(Newlines(PaddingLines(areaHeight, height)), text)
  }

  /** The canvas is used exactly for a successful mono render; otherwise the paragraph
      centres the text (one line per row, or per line of the error message). */
  lemma DrawCanvasChoice(rt: Cache.RenderType, result: Result<seq<seq<char>>, string>,
                         rect: (nat, nat), areaHeight: nat)
    ensures DrawCanvas(rt, result, rect, areaHeight).CanvasPreview? <==> rt == Cache.Mono && result.Ok?
    ensures (rt != Cache.Mono || result.Err?) ==>
      var p := DrawCanvas(rt, result, rect, areaHeight);
      (result.Ok? ==> (p.text == TerminalRender.Text(result.value) &&
                       |p.padding| == PaddingLines(areaHeight, |result.value|))) &&
      (result.Err? ==> (p.text == result.error &&
                        |p.padding| == PaddingLines(areaHeight, |TerminalRender.Lines(result.error)|)))
  {
  }

  // ------------------------------------------------------------ the event loop

  /** What a run of the loop leaves behind: its result, the state calls made and the
      terminal operations attempted, in order. */
  datatype Trace<E> = Trace(result: Result<(), E>, calls: seq<StateCall>, screen: seq<TermOp>)

  /** What the terminal answers, each `Ok(())` or the error that `?` passes on: `setup`,
      the first `terminal.draw`, the redraw that may follow event `k` (`redraws[k]`) and
      `shutdown`, which happens at most once. */
  datatype Terminal<E> = Terminal(setup: Result<(), E>, firstDraw: Result<(), E>,
                                  redraws: seq<Result<(), E>>, shutdown: Result<(), E>)

  function Prepend<E>(calls: seq<StateCall>, screen: seq<TermOp>, t: Trace<E>): Trace<E>
  {
    Trace(t.result, calls + t.calls, screen + t.screen)
  }

  /** `terminal.draw(|f| self.draw(f))`: `draw` sets the preview size. */
  function DrawCalls(canvas: (nat, nat)): seq<StateCall>
  {
    var (w, h) := InnerSize(canvas.0, canvas.1);
    [UpdateRect(w, h)]
  }

  /** An event that makes the loop shut down: an event stream error or `q`. */
  predicate Stops<E>(event: Result<TerminalEvent, E>)
  {
    OnEventSpec(event).0.Err? || OnEventSpec(event).0 == Ok(Exit)
  }

  /** Event `k` asks for a redraw and the terminal fails to draw it. */
  predicate DrawFails<E>(events: seq<Result<TerminalEvent, E>>, term: Terminal<E>, k: nat)
    requires k < |events| <= |term.redraws|
  {
    OnEventSpec(events[k]).0 == Ok(ReDraw) && term.redraws[k].Err?
  }

  /** Event `k` ends the loop, by a shutdown or by a failed redraw. */
  predicate Ends<E>(events: seq<Result<TerminalEvent, E>>, term: Terminal<E>, k: nat)
    requires k < |events| <= |term.redraws|
  {
    Stops(events[k]) || DrawFails(events, term, k)
  }

  /** The first event from `i` on that ends the loop, if any. */
  function FirstEnd<E>(events: seq<Result<TerminalEvent, E>>, term: Terminal<E>, i: nat): (r: Option<nat>)
    requires i <= |events| <= |term.redraws|
    ensures r.Some? ==> i <= r.value < |events| && Ends(events, term, r.value)
    ensures forall j | i <= j < |events| && (r.None? || j < r.value) :: !Ends(events, term, j)
    decreases |events| - i
  {
    if i == |events| then None
    else if Ends(events, term, i) then Some(i)
    else FirstEnd(events, term, i + 1)
  }

  /** The `for event in events.iter()` loop from event `i` on. */
  function Run<E>(events: seq<Result<TerminalEvent, E>>, term: Terminal<E>, i: nat, canvas: (nat, nat)): Trace<E>
    requires i <= |events| <= |term.redraws|
    decreases |events| - i
  {
    if i == |events| then Trace(Ok(()), [], [])
    else
      var (r, calls) := OnEventSpec(events[i]);
      match r
      case Err(e) => Trace(if term.shutdown.Err? then term.shutdown else Err(e), calls, [Shutdown])
      case Ok(ReDraw) =>
        if term.redraws[i].Err? then Trace(term.redraws[i], calls + DrawCalls(canvas), [Draw])
        else Prepend(calls + DrawCalls(canvas), [Draw], Run(events, term, i + 1, canvas))
      case Ok(Continue) => Prepend(calls, [], Run(events, term, i + 1, canvas))
      case Ok(Exit) => Trace(term.shutdown, calls, [Shutdown])
  }

  lemma AppendAssoc<T>(a: seq<T>, b: seq<T>, c: seq<T>)
    ensures a + (b + c) == (a + b) + c
  {
  }

  lemma PrependTwice<E>(a: seq<StateCall>, b: seq<TermOp>, c: seq<StateCall>, d: seq<TermOp>, t: Trace<E>)
    ensures Prepend(a, b, Prepend(c, d, t)) == Prepend(a + c, b + d, t)
  {
    AppendAssoc(a, c, t.calls);
    AppendAssoc(b, d, t.screen);
  }

  /** One event of the loop that does not end it. */
  lemma RunStep<E>(events: seq<Result<TerminalEvent, E>>, term: Terminal<E>, i: nat, canvas: (nat, nat))
    requires i < |events| <= |term.redraws| && !Ends(events, term, i)
    ensures OnEventSpec(events[i]).0 == Ok(ReDraw) ==>
      Run(events, term, i, canvas) ==
        Prepend(OnEventSpec(events[i]).1 + DrawCalls(canvas), [Draw], Run(events, term, i + 1, canvas))
    ensures OnEventSpec(events[i]).0 == Ok(Continue) ==>
      Run(events, term, i, canvas) == Prepend(OnEventSpec(events[i]).1, [], Run(events, term, i + 1, canvas))
  {
  }

  /** `show`: set up the terminal, draw once, then run the loop; a failing `setup` or
      first draw returns its error at once. */
  function ShowSpec<E>(events: seq<Result<TerminalEvent, E>>, term: Terminal<E>, canvas: (nat, nat)): Trace<E>
    requires |events| <= |term.redraws|
  {
    if term.setup.Err? then Trace(term.setup, [], [Setup])
    else if term.firstDraw.Err? then Trace(term.firstDraw, DrawCalls(canvas), [Setup, Draw])
    else Prepend(DrawCalls(canvas), [Setup, Draw], Run(events, term, 0, canvas))
  }

  /** An event that does not end the loop puts at most a `Draw` in front and passes the
      result on. */
  lemma RunPassesOn<E>(events: seq<Result<TerminalEvent, E>>, term: Terminal<E>, i: nat, canvas: (nat, nat))
    requires i < |events| <= |term.redraws| && !Ends(events, term, i)
    ensures Run(events, term, i, canvas).result == Run(events, term, i + 1, canvas).result
    ensures var extra := if OnEventSpec(events[i]).0 == Ok(ReDraw) then [Draw] else [];
      Run(events, term, i, canvas).screen == extra + Run(events, term, i + 1, canvas).screen
    ensures FirstEnd(events, term, i) == FirstEnd(events, term, i + 1)
  {
  }

  /** A prefix of operations other than `Shutdown` keeps whether, and how last, a trace
      shuts down. */
  lemma ShutdownPrefix<E>(t: Trace<E>, rest: Trace<E>, extra: seq<TermOp>)
    requires Shutdown !in extra && t.screen == extra + rest.screen
    requires Shutdown in rest.screen ==> rest.screen[|rest.screen| - 1] == Shutdown
    ensures Shutdown in t.screen <==> Shutdown in rest.screen
    ensures Shutdown in t.screen ==> t.screen[|t.screen| - 1] == Shutdown
  {
    assert Shutdown in t.screen <==> Shutdown in rest.screen;
  }

  /** How the loop ends, decided by the first event that ends it. An event stream error
      or `q` shuts the terminal down as the last operation; the result is then the
      shutdown's error if it fails, and otherwise the stream's error or `Ok(())`. A
      failed redraw returns its error without a shutdown. With no such event the loop
      returns `Ok(())` without a shutdown. */
  lemma {:induction false} RunShutsDown<E>(events: seq<Result<TerminalEvent, E>>, term: Terminal<E>, i: nat,
                                           canvas: (nat, nat))
    requires i <= |events| <= |term.redraws|
    ensures var t, end := Run(events, term, i, canvas), FirstEnd(events, term, i);
      (Shutdown in t.screen <==> end.Some? && Stops(events[end.value])) &&
      (Shutdown in t.screen ==> t.screen[|t.screen| - 1] == Shutdown) &&
      (end.None? ==> t.result == Ok(())) &&
      (end.Some? && events[end.value].Err? ==>
        t.result == if term.shutdown.Err? then term.shutdown else Err(events[end.value].error)) &&
      (end.Some? && OnEventSpec(events[end.value]).0 == Ok(Exit) ==> t.result == term.shutdown) &&
      (end.Some? && !Stops(events[end.value]) ==> t.result == term.redraws[end.value])
    decreases |events| - i
  {
    if i < |events| {
      if Ends(events, term, i) {
        if Stops(events[i]) {
          assert Run(events, term, i, canvas).screen == [Shutdown];
        } else {
          assert Run(events, term, i, canvas).screen == [Draw];
        }
      } else {
        RunShutsDown(events, term, i + 1, canvas);
        RunPassesOn(events, term, i, canvas);
        var extra := if OnEventSpec(events[i]).0 == Ok(ReDraw) then [Draw] else [];
        ShutdownPrefix(Run(events, term, i, canvas), Run(events, term, i + 1, canvas), extra);
      }
    }
  }

  /** `show` shuts the terminal down exactly when setup and the first draw succeed and the
      loop is ended by an event stream error or `q`. An error returned without a
      shutdown is the error of `setup`, of the first draw or of a failed redraw. */
  lemma ShowShutsDown<E>(events: seq<Result<TerminalEvent, E>>, term: Terminal<E>, canvas: (nat, nat))
    requires |events| <= |term.redraws|
    ensures var t, end := ShowSpec(events, term, canvas), FirstEnd(events, term, 0);
      (Shutdown in t.screen <==>
        term.setup.Ok? && term.firstDraw.Ok? && end.Some? && Stops(events[end.value])) &&
      (Shutdown in t.screen ==> t.screen[|t.screen| - 1] == Shutdown) &&
      (t.result.Err? && Shutdown !in t.screen ==>
        t.result == term.setup || t.result == term.firstDraw ||
        (end.Some? && DrawFails(events, term, end.value) && t.result == term.redraws[end.value]))
  {
    if term.setup.Ok? && term.firstDraw.Ok? {
      RunShutsDown(events, term, 0, canvas);
      ShutdownPrefix(ShowSpec(events, term, canvas), Run(events, term, 0, canvas), [Setup, Draw]);
    }
  }

  /** The events after the first one that ends the loop are never looked at, and neither
      are the later redraw answers. */
  lemma {:induction false} RunIgnoresAfterStop<E>(events: seq<Result<TerminalEvent, E>>, more: seq<Result<TerminalEvent, E>>,
                                                   term: Terminal<E>, i: nat, canvas: (nat, nat))
    requires i <= |events| && |events + more| <= |term.redraws| && FirstEnd(events, term, i).Some?
    ensures Run(events + more, term, i, canvas) == Run(events, term, i, canvas)
    decreases |events| - i
  {
    assert (events + more)[i] == events[i];
    if !Ends(events, term, i) {
      RunIgnoresAfterStop(events, more, term, i + 1, canvas);
    }
  }

  class UI<R> {
    /** The state `State::new` built; the calls below are applied to it in order. */
    const initial: TuiState.State<R>
    var calls: seq<StateCall>
    var screen: seq<TermOp>

    constructor (families: seq<FontMod.Family>)
      requires TuiState.Named(families)
      ensures initial == TuiState.New(families) && calls == [] && screen == []
    {
      initial := TuiState.New(families);
      calls := [];
      screen := [];
    }

    /** `on_event`. */
    method OnEvent<E>(event: Result<TerminalEvent, E>) returns (r: Result<OnEventResult, E>)
      modifies this
      ensures r == OnEventSpec(event).0
      ensures calls == old(calls) + OnEventSpec(event).1 && screen == old(screen)
    {
      if event.Err? {
        return Err(event.error);
      }
      match event.value
      case Tick => r := Ok(Continue);
      case Key(key) =>
        if Alt in key.modifiers || Control in key.modifiers {
          r := Ok(Continue);
        } else if key.code == Char('q') {
          r := Ok(Exit);
        } else if key.code == Up || key.code == Char('k') {
          calls := calls + [MoveUp];
          r := Ok(ReDraw);
        } else if key.code == Down || key.code == Char('j') {
          calls := calls + [MoveDown];
          r := Ok(ReDraw);
        } else if key.code == Left || key.code == Char('h') {
          calls := calls + [PrevRenderType];
          r := Ok(ReDraw);
        } else if key.code == Right || key.code == Char('l') {
          calls := calls + [NextRenderType];
          r := Ok(ReDraw);
        } else {
          r := Ok(Continue);
        }
    }

    /** `terminal.draw(|f| self.draw(f))`, with the terminal's answer. */
    method DrawFrame<E>(canvas: (nat, nat), answer: Result<(), E>) returns (r: Result<(), E>)
      modifies this
      ensures r == answer
      ensures calls == old(calls) + DrawCalls(canvas) && screen == old(screen) + [Draw]
    {
      var (w, h) := InnerSize(canvas.0, canvas.1);
      calls := calls + [UpdateRect(w, h)];
      screen := screen + [Draw];
      r := answer;
    }

    /** `show`, over a finite stream of events and the terminal's answers. */
    method Show<E>(events: seq<Result<TerminalEvent, E>>, term: Terminal<E>, canvas: (nat, nat))
      returns (r: Result<(), E>)
      requires |events| <= |term.redraws|
      modifies this
      ensures r == ShowSpec(events, term, canvas).result
      ensures calls == old(calls) + ShowSpec(events, term, canvas).calls
      ensures screen == old(screen) + ShowSpec(events, term, canvas).screen
    {
      screen := screen + [Setup];
      if term.setup.Err? {
        return term.setup;
      }
      var drawn := DrawFrame(canvas, term.firstDraw);
      if drawn.Err? {
        return drawn;
      }
      ghost var doneCalls, doneScreen := DrawCalls(canvas), [Setup, Draw];
      for i := 0 to |events|
        invariant calls == old(calls) + doneCalls && screen == old(screen) + doneScreen
        invariant Prepend(doneCalls, doneScreen, Run(events, term, i, canvas)) == ShowSpec(events, term, canvas)
      {
        ghost var made := OnEventSpec(events[i]).1;
        ghost var calls0 := calls;
        var result := OnEvent(events[i]);
        if result.Err? || result == Ok(Exit) {
          screen := screen + [Shutdown];
          AppendAssoc(old(calls), doneCalls, made);
          AppendAssoc(old(screen), doneScreen, [Shutdown]);
          if result.Err? {
            return if term.shutdown.Err? then term.shutdown else Err(result.error);
          }
          return term.shutdown;
        }
        if result == Ok(ReDraw) {
          drawn := DrawFrame(canvas, term.redraws[i]);
          AppendAssoc(calls0, made, DrawCalls(canvas));
          AppendAssoc(old(calls), doneCalls, made + DrawCalls(canvas));
          AppendAssoc(old(screen), doneScreen, [Draw]);
          if drawn.Err? {
            return drawn;
          }
          RunStep(events, term, i, canvas);
          PrependTwice(doneCalls, doneScreen, made + DrawCalls(canvas), [Draw], Run(events, term, i + 1, canvas));
          doneCalls, doneScreen := doneCalls + (made + DrawCalls(canvas)), doneScreen + [Draw];
        } else {
          RunStep(events, term, i, canvas);
          AppendAssoc(old(calls), doneCalls, made);
          PrependTwice(doneCalls, doneScreen, made, [], Run(events, term, i + 1, canvas));
          assert doneScreen + [] == doneScreen;
          doneCalls := doneCalls + made;
        }
      }
      return Ok(());
    }
  }

  /** `UI::new`: `None` exactly when there is no family to show. */
  method New<R>(families: seq<FontMod.Family>) returns (ui: Option<UI<R>>)
    requires TuiState.Named(families)
    ensures ui.None? <==> families == []
    ensures ui.Some? ==>
      fresh(ui.value) && ui.value.initial == TuiState.New(families) && ui.value.calls == [] && ui.value.screen == []
  {
    if |families| > 0 {
      var u := new UI(families);
      return Some(u);
    }
    return None;
  }
}
