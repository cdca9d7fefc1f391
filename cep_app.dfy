/**
 * The address-lookup screen: five pieces of component state (`cep`,
 * `address`, `loading`, `error`, `isSearching`), the keystroke handler, the
 * two-mode button handler and the three ways an outstanding lookup ends.
 *
 * `Step` gives the effect of each handler on a state value; the class `App`
 * performs the same updates field by field, as the setters do, and is proved
 * against `Step`. `Enabled` is what the rendered screen lets the user (or
 * the network) do in a state: type while the input is editable, press while
 * the button is not disabled, complete a lookup only while one is loading.
 */
module CepApp {
  import opened CepFilter

  datatype Option<T> = None | Some(value: T)

  /** The five address fields the screen shows after a successful lookup. */
  datatype Address = Address(
    cep: string,
    logradouro: string,
    bairro: string,
    localidade: string,
    uf: string)

  /** How an outstanding lookup ends. */
  datatype Outcome =
    | NotFound            // the service answered with its not-found flag set
    | Found(data: Address) // the service answered with an address
    | Failure             // the request or its response failed

  const NotFoundMessage: string := "CEP não encontrado."
  const FailureMessage: string := "Erro ao buscar o CEP."
  const SearchLabel: string := "Buscar"
  const NewSearchLabel: string := "Nova Busca"

  datatype State = State(
    cep: string,
    address: Option<Address>,
    loading: bool,
    error: Option<string>,
    isSearching: bool)

  datatype Event =
    | ChangeText(text: string) // a keystroke in the input field
    | Press                    // a press of the button
    | Complete(outcome: Outcome) // the lookup started by the last search press ends

  /** The state the screen starts in. */
  const Initial: State := State("", None, false, None, true)

  /** The input field accepts keystrokes only in search mode. */
  predicate Editable(s: State): (r: bool)
    ensures r <==> Label(s) == SearchLabel
  {
    s.isSearching
  }

  /** The button ignores presses while loading or while the CEP is not eight characters long. */
  predicate Disabled(s: State) {
    s.loading || |s.cep| != CepLength
  }

  /** The button's text. */
  function Label(s: State): (r: string)
    ensures r == SearchLabel || r == NewSearchLabel
  {
    if s.isSearching then SearchLabel else NewSearchLabel
  }

  /** What the rendered screen allows in state `s`. */
  predicate Enabled(s: State, e: Event) {
    match e
    case ChangeText(_) => Editable(s)
    case Press => !Disabled(s)
    case Complete(_) => s.loading
  }

  /** The effect of each handler; the handlers themselves check nothing. */
  function Step(s: State, e: Event): (t: State)
    ensures IsCep(s.cep) ==> IsCep(t.cep)
    ensures e.Complete? ==> !t.loading && t.cep == s.cep
    ensures t.loading && !s.loading ==> e == Press && s.isSearching
  {
    match e
    case ChangeText(text) => s.(cep := FormatCep(text))
    case Press =>
      if s.isSearching then s.(loading := true, error := None, address := None)
      else s.(cep := "", address := None, error := None, isSearching := true)
    case Complete(outcome) =>
      match outcome
      case NotFound => s.(error := Some(NotFoundMessage), loading := false)
      case Found(data) => s.(address := Some(data), isSearching := false, loading := false)
      case Failure => s.(error := Some(FailureMessage), loading := false)
  }

  /** The consistency every reachable state keeps. */
  predicate Inv(s: State) {
    && IsCep(s.cep)
    && (s.address.Some? <==> !s.isSearching)
    && (s.address.Some? ==> s.error.None? && !s.loading)
    && (s.loading ==> s.isSearching && s.address.None? && s.error.None?)
    && (s.error.Some? ==> s.error.value == NotFoundMessage || s.error.value == FailureMessage)
  }

  /** A sequence of events each of which the screen allows when it happens. */
  predicate ValidTrace(s: State, events: seq<Event>)
    decreases |events|
  {
    events == [] || (Enabled(s, events[0]) && ValidTrace(Step(s, events[0]), events[1..]))
  }

  function Run(s: State, events: seq<Event>): State
    decreases |events|
  {
    if events == [] then s else Run(Step(s, events[0]), events[1..])
  }

  // ---------------------------------------------------------------------------
  // One handler at a time

  /** A keystroke stores the filtered text and changes nothing else. */
  lemma ChangeTextUpdatesOnlyCep(s: State, text: string)
    ensures var t := Step(s, ChangeText(text));
      && IsCep(t.cep) && IsSubsequence(t.cep, text)
      && t.address == s.address && t.loading == s.loading
      && t.error == s.error && t.isSearching == s.isSearching
  {
    FormatIsSubsequence(text);
  }

  /**
   * A press in search mode starts a lookup: loading, no error, no address,
   * same CEP, still in search mode; the input stays editable and the button
   * becomes disabled, so no second lookup can start.
   */
  lemma PressStartsLookup(s: State)
    requires s.isSearching
    ensures var t := Step(s, Press);
      && t.loading && t.error.None? && t.address.None?
      && t.cep == s.cep && t.isSearching
      && Editable(t) && Disabled(t) && Label(t) == SearchLabel
      && !Enabled(t, Press)
  {
  }

  /**
   * A press outside search mode resets the form: empty CEP, no address, no
   * error, back in search mode, and the button is disabled until eight
   * digits are typed again.
   */
  lemma PressResetsForm(s: State)
    requires Inv(s) && !s.isSearching
    ensures var t := Step(s, Press);
      && t.cep == "" && t.address.None? && t.error.None? && t.isSearching && !t.loading
      && Editable(t) && Disabled(t) && Label(t) == SearchLabel
  {
  }

  /**
   * A not-found answer shows the not-found message and stops loading; the
   * screen stays in search mode, editable, with label "Buscar".
   */
  lemma NotFoundStaysInSearchMode(s: State)
    requires Inv(s) && s.loading
    ensures var t := Step(s, Complete(NotFound));
      && t.error == Some(NotFoundMessage) && !t.loading
      && t.address.None? && t.isSearching
      && Editable(t) && Label(t) == SearchLabel
  {
  }

  /**
   * A successful answer shows the returned address, leaves search mode and
   * stops loading, with no error shown; the label becomes "Nova Busca".
   */
  lemma FoundShowsAddress(s: State, data: Address)
    requires Inv(s) && s.loading
    ensures var t := Step(s, Complete(Found(data)));
      && t.address == Some(data) && !t.isSearching && !t.loading && t.error.None?
      && !Editable(t) && Label(t) == NewSearchLabel
  {
  }

  /**
   * A failed request shows the failure message, never the not-found one,
   * and stops loading; the screen stays in search mode with no address.
   */
  lemma FailureStaysInSearchMode(s: State)
    requires Inv(s) && s.loading
    ensures var t := Step(s, Complete(Failure));
      && t.error == Some(FailureMessage) && t.error != Some(NotFoundMessage)
      && !t.loading && t.address.None? && t.isSearching
      && Editable(t) && Label(t) == SearchLabel
  {
  }

  /** Only a successful answer takes the screen out of search mode. */
  lemma OnlySuccessLeavesSearchMode(s: State, e: Event)
    requires s.isSearching && !Step(s, e).isSearching
    ensures e.Complete? && e.outcome.Found?
  {
  }

  /** A lookup's completion neither reads nor changes the CEP. */
  lemma CompletionIgnoresCep(s: State, cep: string, outcome: Outcome)
    ensures Step(s.(cep := cep), Complete(outcome)) == Step(s, Complete(outcome)).(cep := cep)
    ensures Step(s, Complete(outcome)).cep == s.cep
  {
  }

  /** While a lookup is outstanding the input is still editable, so the CEP can change under it. */
  lemma EditableWhileLoading(s: State, text: string)
    requires Inv(s) && s.loading
    ensures Enabled(s, ChangeText(text))
    ensures var t := Step(s, ChangeText(text)); t.loading && t.cep == FormatCep(text)
  {
  }

  // ---------------------------------------------------------------------------
  // Whole runs of the screen

  lemma InitialSatisfiesInv()
    ensures Inv(Initial)
    ensures Editable(Initial) && Disabled(Initial) && Label(Initial) == SearchLabel
  {
  }

  /** Every event the screen allows keeps the invariant. */
  lemma StepPreservesInv(s: State, e: Event)
    requires Inv(s) && Enabled(s, e)
    ensures Inv(Step(s, e))
  {
  }

  lemma {:induction false} RunPreservesInv(s: State, events: seq<Event>)
    requires Inv(s) && ValidTrace(s, events)
    ensures Inv(Run(s, events))
    decreases |events|
  {
    if events != [] {
      StepPreservesInv(s, events[0]);
      RunPreservesInv(Step(s, events[0]), events[1..]);
    }
  }

  /**
   * In every state the screen can reach: an address is shown only outside
   * search mode with no error and nothing loading; while loading, the screen
   * is in search mode with neither address nor error; an address and an
   * error are never shown together.
   */
  lemma ReachableStatesAreConsistent(events: seq<Event>)
    requires ValidTrace(Initial, events)
    ensures var s := Run(Initial, events);
      && IsCep(s.cep)
      && (s.address.Some? ==> !s.isSearching && s.error.None? && !s.loading)
      && (s.loading ==> s.isSearching && s.address.None? && s.error.None?)
      && !(s.address.Some? && s.error.Some?)
  {
    InitialSatisfiesInv();
    RunPreservesInv(Initial, events);
  }

  lemma RunCons(s: State, e: Event, rest: seq<Event>)
    ensures Run(s, [e] + rest) == Run(Step(s, e), rest)
    ensures ValidTrace(s, [e] + rest) <==> Enabled(s, e) && ValidTrace(Step(s, e), rest)
  {
  }

  /**
   * Typing a shorter CEP while a lookup is loading and then receiving an
   * address leaves the screen with nothing the user can do: the input is no
   * longer editable and the button stays disabled because the CEP is no
   * longer eight digits long.
   */
  lemma EditDuringLookupCanStrandScreen(full: string, partial: string, data: Address)
    requires IsCep(full) && |full| == CepLength
    requires IsCep(partial) && |partial| < CepLength
    ensures var events := [ChangeText(full), Press, ChangeText(partial), Complete(Found(data))];
      && ValidTrace(Initial, events)
      && var s := Run(Initial, events);
      && s.address == Some(data) && s.cep == partial
      && forall e :: !Enabled(s, e)
  {
    FormatFixesExactlyCeps(full);
    FormatFixesExactlyCeps(partial);
    var s1 := Initial.(cep := full);
    var s2 := s1.(loading := true);
    var s3 := s2.(cep := partial);
    var s4 := s3.(address := Some(data), isSearching := false, loading := false);
    RunCons(s3, Complete(Found(data)), []);
    RunCons(s2, ChangeText(partial), [Complete(Found(data))]);
    RunCons(s1, Press, [ChangeText(partial), Complete(Found(data))]);
    RunCons(Initial, ChangeText(full), [Press, ChangeText(partial), Complete(Found(data))]);
  }

  // ---------------------------------------------------------------------------
  // The component, updating its state field by field

  class App {
    var cep: string
    var address: Option<Address>
    var loading: bool
    var error: Option<string>
    var isSearching: bool

    function Snapshot(): State
      reads this
    {
      State(cep, address, loading, error, isSearching)
    }

    ghost predicate Valid()
      reads this
    {
      Inv(Snapshot())
    }

    constructor ()
      ensures Snapshot() == Initial && Valid()
    {
      cep := "";
      address := None;
      loading := false;
      error := None;
      isSearching := true;
    }

    /**
     * The input field's change handler. Unlike the button's handler it has no
     * precondition: the handler checks nothing, and the field's `editable`
     * guard is `Enabled(s, ChangeText(_))` in the model of whole runs.
     */
    method HandleCepChange(text: string)
      requires Valid()
      modifies this
      ensures Valid()
      ensures Snapshot() == Step(old(Snapshot()), ChangeText(text))
    {
      var formattedCep := FormatCep(text);
      cep := formattedCep;
    }

    /** The button's press handler: start a lookup in search mode, reset the form otherwise. */
    method FetchAddress()
      requires Valid() && !Disabled(Snapshot())
      modifies this
      ensures Valid()
      ensures Snapshot() == Step(old(Snapshot()), Press)
    {
      if isSearching {
        loading := true;
        error := None;
        address := None;
      } else {
        cep := "";
        address := None;
        error := None;
        isSearching := true;
      }
    }

    /** The lookup's completion callbacks: the answer handler and the failure handler. */
    method ResolveLookup(outcome: Outcome)
      requires Valid() && loading
      modifies this
      ensures Valid()
      ensures Snapshot() == Step(old(Snapshot()), Complete(outcome))
    {
      match outcome {
        case NotFound =>
          error := Some(NotFoundMessage);
          loading := false;
        case Found(data) =>
          address := Some(data);
          isSearching := false;
          loading := false;
        case Failure =>
          error := Some(FailureMessage);
          loading := false;
      }
    }
  }
}
