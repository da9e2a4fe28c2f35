/** The run controller both desktop applications share (`MainWindow` of the
    Qt application and `WalletBruteForceApp` of the Tk application): the
    `is_running` and `is_paused` flags, the worker they drive, the progress
    animation of the Qt window, and the tables the worker's messages update.
    Widget calls (buttons, status bar, message boxes) are left out; what a
    transition shows the user is reduced to a `Notice`. */
module GuiController {
  import opened Dicts
  import opened WalletLog

  /** The worker thread's own flags, as `pause`, `resume` and `stop` set them. */
  datatype Worker = Worker(networks: seq<string>, running: bool, paused: bool)

  datatype Controller = Controller(running: bool, paused: bool, worker: Option<Worker>, progress: int)

  /** What a transition shows besides the state: nothing, or the warning that
      no network is selected. */
  datatype Notice = Quiet | SelectNetworkWarning

  datatype Outcome = Outcome(state: Controller, notice: Notice)

  /** The window as constructed: stopped, no worker, progress bar at 0. */
  const Initial: Controller := Controller(false, false, None, 0)

  /** What every transition keeps: a paused controller is running, a running
      one drives a running worker whose pause flag it mirrors, and the
      progress bar stays within its range. */
  predicate Valid(c: Controller) {
    && (c.paused ==> c.running)
    && (c.running ==> c.worker.Some? && c.worker.value.running && c.worker.value.paused == c.paused)
    && 0 <= c.progress < 100
  }

  // ---------------------------------------------------------------------
  // Transitions

  /** `start_brute_force`: ignored while running; refused, with a warning,
      when no network is selected; otherwise a fresh worker is started on
      the selected networks. */
  function Start(c: Controller, selected: seq<string>): (o: Outcome)
    ensures o.notice == SelectNetworkWarning <==> !c.running && selected == []
    ensures o.state.running <==> c.running || selected != []
    ensures o.state.progress == c.progress
    ensures c.running || selected == [] ==> o.state == c
    ensures !c.running && selected != [] ==>
      !o.state.paused && o.state.worker == Some(Worker(selected, true, false))
    ensures Valid(c) ==> Valid(o.state)
  {
    if c.running then Outcome(c, Quiet)
    else if selected == [] then Outcome(c, SelectNetworkWarning)
    else Outcome(c.(running := true, paused := false, worker := Some(Worker(selected, true, false))), Quiet)
  }

  /** `toggle_pause`: only while running with a worker; flips the pause flag
      of the controller and of the worker together. */
  function TogglePause(c: Controller): (r: Controller)
    ensures r.running == c.running && r.progress == c.progress
    ensures !c.running || c.worker.None? ==> r == c
    ensures c.running && c.worker.Some? ==>
      r.paused == !c.paused && r.worker.Some? && r.worker.value.paused == r.paused
      && r.worker.value.running == c.worker.value.running
    ensures Valid(c) ==> Valid(r)
  {
    if !c.running || c.worker.None? then c
    else if c.paused then c.(paused := false, worker := Some(c.worker.value.(paused := false)))
    else c.(paused := true, worker := Some(c.worker.value.(paused := true)))
  }

  /** `stop_brute_force`: only while running with a worker; stops the worker
      and clears both flags. The worker object stays referenced. */
  function Stop(c: Controller): (r: Controller)
    ensures Valid(c) ==> Valid(r) && !r.running && !r.paused
    ensures r.progress == c.progress
    ensures !c.running || c.worker.None? ==> r == c
    ensures c.running && c.worker.Some? ==> r.worker.Some? && !r.worker.value.running
  {
    if !c.running || c.worker.None? then c
    else c.(running := false, paused := false, worker := Some(c.worker.value.(running := false)))
  }

  /** `update_progress_bar` of the Qt window, run by a 100 ms timer. */
  function Tick(c: Controller): (r: Controller)
    ensures r.running == c.running && r.paused == c.paused && r.worker == c.worker
  {
    if c.running && !c.paused then c.(progress := (c.progress + 5) % 100) else c
  }

  // ---------------------------------------------------------------------
  // Event sequences

  datatype Event = StartEvent(selected: seq<string>) | ToggleEvent | StopEvent | TickEvent

  function Step(c: Controller, e: Event): Controller {
    match e
    case StartEvent(sel) => Start(c, sel).state
    case ToggleEvent => TogglePause(c)
    case StopEvent => Stop(c)
    case TickEvent => Tick(c)
  }

  function Run(c: Controller, events: seq<Event>): Controller
    decreases |events|
  {
    if |events| == 0 then c else Run(Step(c, events[0]), events[1..])
  }

  /** Every transition keeps the controller valid. */
  lemma StepValid(c: Controller, e: Event)
    requires Valid(c)
    ensures Valid(Step(c, e))
  {
  }

  /** Whatever the user and the timer do, a paused controller is running. */
  lemma {:induction false} RunValid(c: Controller, events: seq<Event>)
    requires Valid(c)
    ensures Valid(Run(c, events))
    ensures Run(c, events).paused ==> Run(c, events).running
    decreases |events|
  {
    if |events| > 0 {
      StepValid(c, events[0]);
      RunValid(Step(c, events[0]), events[1..]);
    }
  }

  lemma InitialValid()
    ensures Valid(Initial)
  {
  }

  /** Pausing and resuming restores the controller exactly. */
  lemma ToggleTwice(c: Controller)
    requires Valid(c)
    ensures TogglePause(TogglePause(c)) == c
  {
  }

  /** Stopping twice is stopping once, and a stopped controller ignores
      pause requests. */
  lemma StopIdempotent(c: Controller)
    ensures Stop(Stop(c)) == Stop(c)
    ensures TogglePause(Stop(c)) == Stop(c)
  {
  }

  /** The progress bar moves exactly when the run is active. */
  lemma TickMoves(c: Controller)
    requires Valid(c)
    ensures Tick(c) != c <==> c.running && !c.paused
    ensures Valid(Tick(c))
  {
  }

  function Ticks(c: Controller, k: nat): Controller
    decreases k
  {
    if k == 0 then c else Tick(Ticks(c, k - 1))
  }

  /** `k` timer ticks of an active run advance the bar by `5 k` modulo 100;
      a paused or stopped run keeps it where it is. */
  lemma {:induction false} TicksAdvance(c: Controller, k: nat)
    requires Valid(c)
    ensures Ticks(c, k) == (if c.running && !c.paused then c.(progress := (c.progress + 5 * k) % 100) else c)
    decreases k
  {
    if k > 0 {
      TicksAdvance(c, k - 1);
      if c.running && !c.paused {
        var p := (c.progress + 5 * (k - 1)) % 100;
        assert (p + 5) % 100 == (c.progress + 5 * k) % 100 by {
          ModStep(c.progress + 5 * (k - 1), 5);
        }
      }
    }
  }

  lemma ModStep(x: int, d: int)
    requires x >= 0 && d >= 0
    ensures (x % 100 + d) % 100 == (x + d) % 100
  {
    var q := x / 100;
    assert x == 100 * q + x % 100;
    assert x + d == 100 * q + (x % 100 + d);
  }

  /** Twenty ticks bring the animation of an active run back to where it was. */
  lemma TicksCycle(c: Controller)
    requires Valid(c)
    ensures Ticks(c, 20) == c
  {
    TicksAdvance(c, 20);
    assert (c.progress + 100) % 100 == c.progress;
  }

  // ---------------------------------------------------------------------
  // Worker messages and tables

  /** A row of the address table: network, address, balance. */
  datatype AddressRow = AddressRow(network: string, address: string, balance: string)

  /** `d.get(k, default)` */
  function GetOr(d: Dict, k: string, default: string): (r: string)
    ensures k in Keys(d) ==> Some(r) == Get(d, k)
    ensures k !in Keys(d) ==> r == default
  {
    match Get(d, k)
    case Some(v) => v
    case None => default
  }

  /** The address table rebuilt from a progress message: one row per address,
      in address order, with balance `"0"` for an unchecked network. */
  function AddressTable(addrs: Dict, bals: Dict): (rows: seq<AddressRow>)
    ensures |rows| == |addrs|
    ensures forall i :: 0 <= i < |addrs| ==>
      rows[i] == AddressRow(addrs[i].0, addrs[i].1, GetOr(bals, addrs[i].0, "0"))
    decreases |addrs|
  {
    if |addrs| == 0 then []
    else [AddressRow(addrs[0].0, addrs[0].1, GetOr(bals, addrs[0].0, "0"))] + AddressTable(addrs[1..], bals)
  }

  /** Tk's `found` handler inserts each row at the top of the table
      (`insert("", 0, ...)`), one after the other. */
  function InsertAtTop(table: seq<Row>, rows: seq<Row>): (r: seq<Row>)
    ensures |r| == |table| + |rows|
    decreases |rows|
  {
    if |rows| == 0 then table else InsertAtTop([rows[0]] + table, rows[1..])
  }

  function Reverse<T>(s: seq<T>): (r: seq<T>)
    ensures |r| == |s|
    ensures forall i :: 0 <= i < |s| ==> r[i] == s[|s| - 1 - i]
    decreases |s|
  {
    if |s| == 0 then [] else Reverse(s[1..]) + [s[0]]
  }

  /** Rows inserted one by one at the top end up above the old rows, in
      reverse order: the newest found wallet comes first. */
  lemma {:induction false} InsertAtTopReverses(table: seq<Row>, rows: seq<Row>)
    ensures InsertAtTop(table, rows) == Reverse(rows) + table
    decreases |rows|
  {
    if |rows| > 0 {
      InsertAtTopReverses([rows[0]] + table, rows[1..]);
      assert Reverse(rows) == Reverse(rows[1..]) + [rows[0]];
      assert Reverse(rows[1..]) + ([rows[0]] + table) == Reverse(rows) + table;
    }
  }

  /** The worker's `formatted_balances`: every checked network with its
      balance as `format_balance` shows it. The formatter itself, a
      floating-point conversion into currency units, is the parameter
      `fmt`. */
  function Formatted(fmt: (string, string) -> string, bals: Dict): (r: Dict)
    ensures Keys(r) == Keys(bals)
    ensures forall k :: Get(bals, k).Some? ==> Get(r, k) == Some(fmt(k, Get(bals, k).value))
    decreases |bals|
  {
    if |bals| == 0 then []
    else
      var x := (bals[0].0, fmt(bals[0].0, bals[0].1));
      var rest := Formatted(fmt, bals[1..]);
      assert bals == [bals[0]] + bals[1..];
      KeysCons(x, rest);
      KeysCons(bals[0], bals[1..]);
      GetCons(x, rest);
      GetCons(bals[0], bals[1..]);
      [x] + rest
  }

  /** The window state the worker's messages touch. */
  datatype Window = Window(ctl: Controller, addressRows: seq<AddressRow>, mnemonic: string, found: seq<Row>)

  /** A message from the worker: an error, a progress report with the current
      wallet, or a found wallet with the time it was shown. */
  datatype Message =
    | ErrorMessage(text: string)
    | ProgressMessage(mnemonic: string, addrs: Dict, bals: Dict)
    | FoundMessage(ts: string, addrs: Dict, bals: Dict)

  /** Tk's `update_ui`: an error stops the run; a progress report replaces the
      mnemonic and the address table; a found wallet goes on top of the found
      table. */
  function TkUpdate(w: Window, msg: Message): (r: Window)
    ensures msg.ErrorMessage? ==> r == w.(ctl := Stop(w.ctl))
    ensures msg.ProgressMessage? ==>
      r == w.(mnemonic := msg.mnemonic, addressRows := AddressTable(msg.addrs, msg.bals))
    ensures msg.FoundMessage? ==> r.found == Reverse(Rows(msg.ts, msg.addrs, msg.bals)) + w.found
    ensures msg.FoundMessage? ==> r.ctl == w.ctl && r.addressRows == w.addressRows && r.mnemonic == w.mnemonic
  {
    match msg
    case ErrorMessage(_) => w.(ctl := Stop(w.ctl))
    case ProgressMessage(m, addrs, bals) => w.(mnemonic := m, addressRows := AddressTable(addrs, bals))
    case FoundMessage(ts, addrs, bals) =>
      InsertAtTopReverses(w.found, Rows(ts, addrs, bals));
      w.(found := InsertAtTop(w.found, Rows(ts, addrs, bals)))
  }

  /** The Qt window's `update_progress` (errors and found wallets) and
      `update_seed` (progress reports): found wallets are appended at the
      bottom of the found table. */
  function QtUpdate(w: Window, msg: Message): (r: Window)
    ensures msg.ErrorMessage? ==> r == w.(ctl := Stop(w.ctl))
    ensures msg.ProgressMessage? ==>
      && r.mnemonic == msg.mnemonic && r.addressRows == AddressTable(msg.addrs, msg.bals)
      && r.ctl == w.ctl && r.found == w.found
    ensures msg.FoundMessage? ==> r.found == w.found + Rows(msg.ts, msg.addrs, msg.bals)
    ensures msg.FoundMessage? ==> r.ctl == w.ctl && r.addressRows == w.addressRows && r.mnemonic == w.mnemonic
  {
    match msg
    case ErrorMessage(_) => w.(ctl := Stop(w.ctl))
    case ProgressMessage(m, addrs, bals) => w.(mnemonic := m, addressRows := AddressTable(addrs, bals))
    case FoundMessage(ts, addrs, bals) => w.(found := w.found + Rows(ts, addrs, bals))
  }

  /** Both windows agree on everything but the order of the found table. */
  lemma UpdatesAgree(w: Window, msg: Message)
    ensures TkUpdate(w, msg).ctl == QtUpdate(w, msg).ctl
    ensures TkUpdate(w, msg).addressRows == QtUpdate(w, msg).addressRows
    ensures TkUpdate(w, msg).mnemonic == QtUpdate(w, msg).mnemonic
    ensures msg.FoundMessage? ==>
      TkUpdate(w, msg).found == Reverse(QtUpdate(w, msg).found[|w.found|..]) + w.found
  {
    if msg.FoundMessage? {
      var rows := Rows(msg.ts, msg.addrs, msg.bals);
      assert (w.found + rows)[|w.found|..] == rows;
    }
  }

  /** An error message leaves the run stopped and unpaused, and the
      controller valid, in either window. */
  lemma ErrorStops(w: Window, text: string)
    requires Valid(w.ctl)
    ensures var tk := TkUpdate(w, ErrorMessage(text)).ctl;
      !tk.running && !tk.paused && Valid(tk)
    ensures var qt := QtUpdate(w, ErrorMessage(text)).ctl;
      !qt.running && !qt.paused && Valid(qt)
  {
  }
}
