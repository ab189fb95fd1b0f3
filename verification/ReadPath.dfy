/** Concurrent calls of read_page: each looks the page up under the cache
    lock, reads the file without it, and locks the cache again to fill it. */
module ReadPath {
  import opened Results
  import opened WalLog
  import opened Media
  import opened PageCache

  /** Where one call stands. */
  datatype Reader =
    | Ready
    | Looking(n: nat)
    | Missed(n: nat)
    | Loaded(n: nat, buf: Page)
    | Returned(n: nat, r: Result<Page>)

  /** What the readers share: the file, its logical length, the cache. No
      reader changes the file, the length or the dirty marks. */
  datatype Shared = Shared(disk: seq<Page>, fileLength: nat, pages: seq<Slot>, dirty: seq<bool>)

  datatype State = State(sh: Shared, readers: seq<Reader>)

  /** One step of reader i; each is one critical section or one file read. */
  ghost predicate Step(s: State, i: nat, s': State) {
    && i < |s.readers|
    && match s.readers[i]
       case Ready => exists n: nat :: s' == s.(readers := s.readers[i := Looking(n)])
       case Looking(n) =>
         if n >= MAX_PAGES then s' == s.(readers := s.readers[i := Returned(n, Err(PageLimit))])
         else if n >= |s.sh.pages| then false
         else if s.sh.pages[n].Some? then s' == s.(readers := s.readers[i := Returned(n, Ok(s.sh.pages[n].value))])
         else s' == s.(readers := s.readers[i := Missed(n)])
       case Missed(n) =>
         if n + 1 <= s.sh.fileLength then n < |s.sh.disk| && s' == s.(readers := s.readers[i := Loaded(n, s.sh.disk[n])])
         else s' == s.(readers := s.readers[i := Loaded(n, ZeroPage())])
       case Loaded(n, buf) => n < |s.sh.pages| && s' == Filled(s, i, n, buf)
       case Returned(_, _) => s' == s.(readers := s.readers[i := Ready])
  }

  function Filled(s: State, i: nat, n: nat, buf: Page): State
    requires i < |s.readers| && n < |s.sh.pages|
  {
    State(s.sh.(pages := s.sh.pages[n := Some(buf)]), s.readers[i := Returned(n, Ok(buf))])
  }

  ghost predicate Fine(sh: Shared) {
    Consistent(sh.disk, sh.fileLength, sh.pages, sh.dirty)
  }

  ghost function View(sh: Shared): seq<Page> {
    ViewOf(sh.disk, sh.fileLength, sh.pages)
  }

  /** A call in flight holds nothing that could spoil the cache, and a call
      that returned gave the page of the view. */
  ghost predicate Sound(sh: Shared, r: Reader) {
    match r
    case Ready => true
    case Looking(_) => true
    case Missed(n) => n < MAX_PAGES && |sh.dirty| == MAX_PAGES && !sh.dirty[n]
    case Loaded(n, buf) => n < MAX_PAGES && |sh.dirty| == MAX_PAGES && !sh.dirty[n] && buf == At(sh.disk, n)
    case Returned(n, r) => r == if n < MAX_PAGES then Ok(At(View(sh), n)) else Err(PageLimit)
  }

  ghost predicate Inv(s: State, v: seq<Page>) {
    && Fine(s.sh) && View(s.sh) == v
    && forall i :: 0 <= i < |s.readers| ==> Sound(s.sh, s.readers[i])
  }

  /** Filling a clean slot with the page of the file changes nothing visible. */
  lemma FillKeepsView(sh: Shared, n: nat)
    requires Fine(sh) && n < MAX_PAGES && !sh.dirty[n]
    ensures var sh' := sh.(pages := sh.pages[n := Some(At(sh.disk, n))]);
      Fine(sh') && View(sh') == View(sh) && At(View(sh), n) == At(sh.disk, n)
  {
    assert View(sh.(pages := sh.pages[n := Some(At(sh.disk, n))])) == View(sh);
  }

  lemma CachedPage(sh: Shared, n: nat)
    requires Fine(sh) && n < MAX_PAGES && sh.pages[n].Some?
    ensures At(View(sh), n) == sh.pages[n].value
  {
  }

  /** Whichever reader steps: the view stays, and what is returned is the view's. */
  lemma StepKeeps(s: State, i: nat, s': State, v: seq<Page>)
    requires Inv(s, v) && Step(s, i, s')
    ensures Inv(s', v)
  {
    hide View, ViewOf;
    assert Sound(s.sh, s.readers[i]);
    match s.readers[i]
    case Looking(n) =>
      if n < MAX_PAGES && s.sh.pages[n].Some? {
        CachedPage(s.sh, n);
      }
    case Loaded(n, buf) => FillKeepsView(s.sh, n);
    case _ =>
  }

  ghost predicate IsRun(ss: seq<State>, who: seq<nat>) {
    |ss| == |who| + 1 && forall i :: 0 <= i < |who| ==> Step(ss[i], who[i], ss[i + 1])
  }

  /** Every interleaving of any number of readers leaves the logical pages as
      they were, and every call returns them. */
  lemma {:induction false} RunKeeps(ss: seq<State>, who: seq<nat>, i: nat)
    requires IsRun(ss, who) && i < |ss|
    requires Fine(ss[0].sh) && forall j :: 0 <= j < |ss[0].readers| ==> ss[0].readers[j] == Ready
    ensures Inv(ss[i], View(ss[0].sh))
  {
    hide View, Fine, Step;
    if i > 0 {
      RunKeeps(ss, who, i - 1);
      StepKeeps(ss[i - 1], who[i - 1], ss[i], View(ss[0].sh));
    }
  }

  /** The steps a call still has before it. */
  function Rank(r: Reader): nat {
    match r
    case Ready => 0
    case Looking(_) => 3
    case Missed(_) => 2
    case Loaded(_, _) => 1
    case Returned(_, _) => 0
  }

  /** The page a call asks for. */
  function Asked(r: Reader): nat {
    if r.Ready? then 0 else r.n
  }

  /** A call asks for the same page to its end and returns within three of its
      own steps, whatever the others do in between. */
  lemma CallReturns(s: State, i: nat, s': State)
    requires Step(s, i, s') && (s.readers[i].Looking? || s.readers[i].Missed? || s.readers[i].Loaded?)
    ensures |s'.readers| == |s.readers| && Rank(s'.readers[i]) < Rank(s.readers[i]) <= 3
    ensures !s'.readers[i].Ready? && Asked(s'.readers[i]) == Asked(s.readers[i])
    ensures forall j :: 0 <= j < |s.readers| && j != i ==> s'.readers[j] == s.readers[j]
  {
  }

  /** No reader gets stuck: the file is never read past its end. */
  lemma CanStep(s: State, i: nat, v: seq<Page>)
    requires Inv(s, v) && i < |s.readers|
    ensures exists s' :: Step(s, i, s')
  {
    hide View;
    assert Sound(s.sh, s.readers[i]);
    match s.readers[i]
    case Ready =>
      var s' := s.(readers := s.readers[i := Looking(0)]);
      assert Step(s, i, s');
    case Looking(n) =>
      var r := if n >= MAX_PAGES then Returned(n, Err(PageLimit))
               else if s.sh.pages[n].Some? then Returned(n, Ok(s.sh.pages[n].value))
               else Missed(n);
      assert Step(s, i, s.(readers := s.readers[i := r]));
    case Missed(n) =>
      assert n + 1 <= s.sh.fileLength ==> n < |s.sh.disk|;
      var buf := At(s.sh.disk, n);
      assert Step(s, i, s.(readers := s.readers[i := Loaded(n, buf)]));
    case Loaded(n, buf) => assert Step(s, i, Filled(s, i, n, buf));
    case Returned(_, _) => assert Step(s, i, s.(readers := s.readers[i := Ready]));
  }

  /** Why readers and a writer must not overlap: a page written between a
      reader's file read and its fill is lost from the view. */
  lemma WriterBetweenLosesPage(sh: Shared, n: nat, x: Page)
    requires Fine(sh) && n < |sh.disk| && n < MAX_PAGES && !sh.dirty[n] && x != sh.disk[n]
    ensures var written := sh.(pages := sh.pages[n := Some(x)], dirty := sh.dirty[n := true]);
      var s := State(written, [Loaded(n, sh.disk[n])]);
      && Fine(written) && View(written) == View(sh)[n := x]
      && Step(s, 0, Filled(s, 0, n, sh.disk[n]))
      && View(Filled(s, 0, n, sh.disk[n]).sh) == View(sh) != View(written)
  {
    var written := sh.(pages := sh.pages[n := Some(x)], dirty := sh.dirty[n := true]);
    var s := State(written, [Loaded(n, sh.disk[n])]);
    assert View(written) == View(sh)[n := x];
    assert View(Filled(s, 0, n, sh.disk[n]).sh) == View(sh);
    assert View(sh)[n] == sh.disk[n] && View(written)[n] == x;
  }
}
