/**
 * ScrapeMaster: turns the sorted map from accepted species name to synonyms
 * into one ABTagsScrapeWorker task per species, runs them, and waits until
 * the terminal task has raised the shutdown flag.
 *
 * The thread pool is replaced by running the tasks one after another in key
 * order. The two shared statics only accumulate (a counter and a flag that is
 * only ever raised), so their final values do not depend on that order.
 */
module Master {
  import opened Wrappers
  import opened JavaStrings
  import opened TreeMaps
  import opened ScrapeMasterStatics
  import opened ABTags

  /** The arguments of one `new ABTagsScrapeWorker(species, nameAndSynonyms, lastSpeciesName)`. */
  datatype Task = Task(speciesLabel: string, names: seq<string>, shutdownOn: string)

  /** The name a species' task crawls last: its last synonym, or the species itself. */
  function LastName(species: string, synonyms: seq<string>): (r: string)
    ensures r == ([species] + synonyms)[|synonyms|]
  {
    if synonyms == [] then species else synonyms[|synonyms| - 1]
  }

  /** The constructor's `lastSpeciesName`; None where `lastKey()` throws on an empty map. */
  function LastSpeciesName(m: TreeMap<seq<string>>): (r: Option<string>)
    requires m.Valid()
    ensures r.Some? <==> m.entries != []
  {
    if m.entries == [] then None
    else
      var lastSpecies := m.LastKey();
      Some(LastName(lastSpecies, m.ToMap()[lastSpecies]))
  }

  /** The tasks `scrapeABTags` submits, in key order: each species with its synonyms appended. */
  function Tasks(m: TreeMap<seq<string>>, shutdownOn: string): (ts: seq<Task>)
    requires m.Valid()
    ensures |ts| == |m.entries|
  {
    KeysInMap(m);
    seq(|m.entries|, i requires 0 <= i < |m.entries| =>
      Task(m.entries[i].0, [m.entries[i].0] + m.ToMap()[m.entries[i].0], shutdownOn))
  }

  /** Every species gets a task labelled by it, and the tasks are submitted in ascending label order. */
  lemma TasksFromMap(m: TreeMap<seq<string>>, shutdownOn: string)
    requires m.Valid()
    ensures (set t | t in Tasks(m, shutdownOn) :: t.speciesLabel) == m.ToMap().Keys
    // each task crawls its species first, then what the map holds for it, and ends on the shared terminal name
    ensures forall t :: t in Tasks(m, shutdownOn) ==>
              t.shutdownOn == shutdownOn && t.speciesLabel in m.ToMap() && t.names == [t.speciesLabel] + m.ToMap()[t.speciesLabel]
    ensures forall i, j :: 0 <= i < j < |Tasks(m, shutdownOn)| ==>
              Less(Tasks(m, shutdownOn)[i].speciesLabel, Tasks(m, shutdownOn)[j].speciesLabel)
  {
    var ts := Tasks(m, shutdownOn);
    forall k | k in m.ToMap().Keys ensures k in set t | t in ts :: t.speciesLabel {
      var i :| 0 <= i < |m.entries| && m.entries[i].0 == k;
      assert ts[i].speciesLabel == k;
    }
  }

  /** The task of the greatest species is the one whose last name is the terminal name. */
  lemma TerminalTaskShutsDown(m: TreeMap<seq<string>>)
    requires m.Valid() && m.entries != []
    ensures LastNameIsTerminal(Tasks(m, LastSpeciesName(m).value))
  {
    var ts := Tasks(m, LastSpeciesName(m).value);
    var k := m.LastKey();
    assert ts[|ts| - 1].speciesLabel == k;
  }

  /** The last task's last name is its terminal name. */
  predicate LastNameIsTerminal(ts: seq<Task>)
  {
    ts != [] && ts[|ts| - 1].names != [] && ts[|ts| - 1].names[|ts[|ts| - 1].names| - 1] == ts[|ts| - 1].shutdownOn
  }

  /** A task gets through its crawl and reaches `incrementNumSpecies`. */
  predicate Increments(t: Task, userDir: string, fs: FileSystem, web: Web)
  {
    TaskOutcome(t.speciesLabel, t.names, userDir, fs, web).Some?
  }

  /** A task runs to its end: no exception escapes it. */
  predicate Completes(t: Task, userDir: string, fs: FileSystem, web: Web)
  {
    t.names != [] && Increments(t, userDir, fs, web)
  }

  /** A task raises the shutdown flag: it completes and its last name is the terminal one. */
  predicate Signals(t: Task, userDir: string, fs: FileSystem, web: Web)
  {
    Completes(t, userDir, fs, web) && t.names[|t.names| - 1] == t.shutdownOn
  }

  /** How many of the tasks reach `incrementNumSpecies`. */
  function CountIncrements(ts: seq<Task>, userDir: string, fs: FileSystem, web: Web): (n: nat)
    ensures n <= |ts|
  {
    if ts == [] then 0
    else CountIncrements(ts[..|ts| - 1], userDir, fs, web) + (if Increments(ts[|ts| - 1], userDir, fs, web) then 1 else 0)
  }

  /** Whether some of the tasks raises the flag. */
  predicate AnySignals(ts: seq<Task>, userDir: string, fs: FileSystem, web: Web)
  {
    ts != [] && (AnySignals(ts[..|ts| - 1], userDir, fs, web) || Signals(ts[|ts| - 1], userDir, fs, web))
  }

  /** The flag is raised exactly when one of the tasks signals. */
  lemma AnySignalsSome(ts: seq<Task>, userDir: string, fs: FileSystem, web: Web)
    ensures AnySignals(ts, userDir, fs, web) <==> exists i :: 0 <= i < |ts| && Signals(ts[i], userDir, fs, web)
  {
    if AnySignals(ts, userDir, fs, web) {
      var i := SignallingTask(ts, userDir, fs, web);
    }
    if exists i :: 0 <= i < |ts| && Signals(ts[i], userDir, fs, web) {
      var i :| 0 <= i < |ts| && Signals(ts[i], userDir, fs, web);
      SignalRaisesFlag(ts, i, userDir, fs, web);
    }
  }

  lemma {:induction false} SignallingTask(ts: seq<Task>, userDir: string, fs: FileSystem, web: Web) returns (i: nat)
    requires AnySignals(ts, userDir, fs, web)
    ensures i < |ts| && Signals(ts[i], userDir, fs, web)
    decreases |ts|
  {
    var init := ts[..|ts| - 1];
    if Signals(ts[|ts| - 1], userDir, fs, web) {
      i := |ts| - 1;
    } else {
      i := SignallingTask(init, userDir, fs, web);
      assert init[i] == ts[i];
    }
  }

  lemma {:induction false} SignalRaisesFlag(ts: seq<Task>, i: nat, userDir: string, fs: FileSystem, web: Web)
    requires i < |ts| && Signals(ts[i], userDir, fs, web)
    ensures AnySignals(ts, userDir, fs, web)
    decreases |ts|
  {
    var init := ts[..|ts| - 1];
    if i < |ts| - 1 {
      assert init[i] == ts[i];
      SignalRaisesFlag(init, i, userDir, fs, web);
    }
  }

  predicate AllIncrement(ts: seq<Task>, userDir: string, fs: FileSystem, web: Web)
  {
    forall i :: 0 <= i < |ts| ==> Increments(ts[i], userDir, fs, web)
  }

  lemma AllIncrementSnoc(ts: seq<Task>, userDir: string, fs: FileSystem, web: Web)
    requires ts != []
    ensures AllIncrement(ts, userDir, fs, web) <==>
            AllIncrement(ts[..|ts| - 1], userDir, fs, web) && Increments(ts[|ts| - 1], userDir, fs, web)
  {
    var init := ts[..|ts| - 1];
    if AllIncrement(init, userDir, fs, web) && Increments(ts[|ts| - 1], userDir, fs, web) {
      forall i | 0 <= i < |ts| ensures Increments(ts[i], userDir, fs, web) {
        if i < |init| {
          assert ts[i] == init[i];
        }
      }
    }
  }

  /** The counter reaches the number of species exactly when no task throws before its increment. */
  lemma {:induction false} CountReachesAllIffAllIncrement(ts: seq<Task>, userDir: string, fs: FileSystem, web: Web)
    ensures CountIncrements(ts, userDir, fs, web) == |ts| <==> AllIncrement(ts, userDir, fs, web)
    decreases |ts|
  {
    if ts != [] {
      CountReachesAllIffAllIncrement(ts[..|ts| - 1], userDir, fs, web);
      AllIncrementSnoc(ts, userDir, fs, web);
    }
  }

  /** If the task of the greatest species completes, the flag is raised and the coordinator stops waiting. */
  lemma TerminalCompletionSignals(m: TreeMap<seq<string>>, userDir: string, fs: FileSystem, web: Web)
    requires m.Valid() && m.entries != []
    requires var ts := Tasks(m, LastSpeciesName(m).value); Completes(ts[|ts| - 1], userDir, fs, web)
    ensures AnySignals(Tasks(m, LastSpeciesName(m).value), userDir, fs, web)
  {
    TerminalTaskShutsDown(m);
    LastTaskSignals(Tasks(m, LastSpeciesName(m).value), userDir, fs, web);
  }

  /** A completing last task whose last name is its terminal name raises the flag. */
  lemma LastTaskSignals(ts: seq<Task>, userDir: string, fs: FileSystem, web: Web)
    requires LastNameIsTerminal(ts)
    ensures Completes(ts[|ts| - 1], userDir, fs, web) ==> AnySignals(ts, userDir, fs, web)
  {
  }

  /**
   * When no name is shared between two species' tasks, only the terminal task
   * can raise the flag: if it throws, the flag stays down.
   */
  lemma OnlyTerminalTaskSignals(m: TreeMap<seq<string>>, userDir: string, fs: FileSystem, web: Web, i: nat)
    requires m.Valid() && m.entries != []
    requires var ts := Tasks(m, LastSpeciesName(m).value);
             forall a, b, x, y :: 0 <= a < b < |ts| && 0 <= x < |ts[a].names| && 0 <= y < |ts[b].names| ==>
               ts[a].names[x] != ts[b].names[y]
    requires i < |Tasks(m, LastSpeciesName(m).value)|
    requires Signals(Tasks(m, LastSpeciesName(m).value)[i], userDir, fs, web)
    ensures i == |m.entries| - 1
  {
    TerminalTaskShutsDown(m);
  }

  class ScrapeMaster {
    /** ScrapeMaster's static fields. */
    const statics: Statics
    const speciesWithSynonyms: TreeMap<seq<string>>
    const lastSpeciesName: string

    /** `ScrapeMaster(speciesWithSynonyms)`: remembers the map and the last name of its greatest species. */
    constructor (speciesWithSynonyms: TreeMap<seq<string>>, statics: Statics)
      requires speciesWithSynonyms.Valid() && speciesWithSynonyms.entries != []
      ensures this.speciesWithSynonyms == speciesWithSynonyms && this.statics == statics
      ensures Some(lastSpeciesName) == LastSpeciesName(speciesWithSynonyms)
    {
      this.speciesWithSynonyms := speciesWithSynonyms;
      this.statics := statics;
      var lastSpecies := speciesWithSynonyms.LastKey();
      var synonyms := speciesWithSynonyms.ToMap()[lastSpecies];
      this.lastSpeciesName := if synonyms == [] then lastSpecies else synonyms[|synonyms| - 1];
    }

    /**
     * `scrapeABTags`: one worker per species, in key order. Returns whether
     * the shutdown flag is up afterwards, i.e. whether the coordinator's
     * wait for it ends.
     */
    method ScrapeABTags(userDir: string, fs: FileSystem, web: Web) returns (finished: bool)
      requires speciesWithSynonyms.Valid() && speciesWithSynonyms.entries != []
      requires Some(lastSpeciesName) == LastSpeciesName(speciesWithSynonyms)
      modifies statics
      ensures var ts := Tasks(speciesWithSynonyms, lastSpeciesName);
        && statics.numSpecies == old(statics.numSpecies) + CountIncrements(ts, userDir, fs, web)
        && statics.shutdownScraper == (old(statics.shutdownScraper) || AnySignals(ts, userDir, fs, web))
      ensures finished == statics.shutdownScraper
    {
      ghost var ts := Tasks(speciesWithSynonyms, lastSpeciesName);
      var keys := speciesWithSynonyms.Keys();
      var i := 0;
      while i < |keys|
        invariant 0 <= i <= |keys|
        invariant statics.numSpecies == old(statics.numSpecies) + CountIncrements(ts[..i], userDir, fs, web)
        invariant statics.shutdownScraper == (old(statics.shutdownScraper) || AnySignals(ts[..i], userDir, fs, web))
      {
        SubmitTask(keys, i, userDir, fs, web, ts, old(statics.numSpecies), old(statics.shutdownScraper));
        i := i + 1;
      }
      assert ts[..i] == ts;
      finished := statics.shutdownScraper;
    }

    /**
     * One iteration of the submit loop: the species' name list, then its
     * worker. Counter and flag go from what the first `i` tasks give to what
     * the first `i + 1` give.
     */
    method SubmitTask(keys: seq<string>, i: nat, userDir: string, fs: FileSystem, web: Web, ghost ts: seq<Task>,
                      ghost numSpecies0: int, ghost shutdown0: bool)
      requires speciesWithSynonyms.Valid() && keys == speciesWithSynonyms.Keys() && i < |keys|
      requires ts == Tasks(speciesWithSynonyms, lastSpeciesName)
      requires statics.numSpecies == numSpecies0 + CountIncrements(ts[..i], userDir, fs, web)
      requires statics.shutdownScraper == (shutdown0 || AnySignals(ts[..i], userDir, fs, web))
      modifies statics
      ensures statics.numSpecies == numSpecies0 + CountIncrements(ts[..i + 1], userDir, fs, web)
      ensures statics.shutdownScraper == (shutdown0 || AnySignals(ts[..i + 1], userDir, fs, web))
    {
      var species := keys[i];
      TaskAt(speciesWithSynonyms, lastSpeciesName, i);
      var nameAndSynonyms := [species] + speciesWithSynonyms.ToMap()[species];
      var task := Task(species, nameAndSynonyms, lastSpeciesName);
      assert task == ts[i];
      Execute(task, userDir, fs, web, statics);
      PrefixStep(ts, i, userDir, fs, web);
    }
  }

  /** `scraper.execute(new ABTagsScrapeWorker(...))`, run to its end. */
  method Execute(t: Task, userDir: string, fs: FileSystem, web: Web, statics: Statics)
    modifies statics
    ensures statics.numSpecies == old(statics.numSpecies) + (if Increments(t, userDir, fs, web) then 1 else 0)
    ensures statics.shutdownScraper == (old(statics.shutdownScraper) || Signals(t, userDir, fs, web))
  {
    var worker := new ABTagsScrapeWorker(t.speciesLabel, t.names, t.shutdownOn, userDir, fs);
    assert worker.CurrentTally() == Tally(0, Empty(), []);
    var completed, report := worker.Run(web, statics);
  }

  lemma TaskAt(m: TreeMap<seq<string>>, shutdownOn: string, i: nat)
    requires m.Valid() && i < |m.entries|
    ensures m.Keys()[i] in m.ToMap()
    ensures Tasks(m, shutdownOn)[i] == Task(m.Keys()[i], [m.Keys()[i]] + m.ToMap()[m.Keys()[i]], shutdownOn)
  {
  }

  /** The counter and the flag after one more task. */
  lemma PrefixStep(ts: seq<Task>, i: nat, userDir: string, fs: FileSystem, web: Web)
    requires i < |ts|
    ensures CountIncrements(ts[..i + 1], userDir, fs, web)
            == CountIncrements(ts[..i], userDir, fs, web) + (if Increments(ts[i], userDir, fs, web) then 1 else 0)
    ensures AnySignals(ts[..i + 1], userDir, fs, web) == (AnySignals(ts[..i], userDir, fs, web) || Signals(ts[i], userDir, fs, web))
  {
    var pre := ts[..i + 1];
    assert pre[..i] == ts[..i] && pre[i] == ts[i];
    CountIncrementsSnoc(pre, userDir, fs, web);
  }

  lemma CountIncrementsSnoc(ts: seq<Task>, userDir: string, fs: FileSystem, web: Web)
    requires ts != []
    ensures CountIncrements(ts, userDir, fs, web)
            == CountIncrements(ts[..|ts| - 1], userDir, fs, web) + (if Increments(ts[|ts| - 1], userDir, fs, web) then 1 else 0)
  {
  }
}
