# CEP address lookup screen — verified model

A model of the single React Native screen in `App.js` that looks up a
Brazilian postal code (CEP, eight digits) and shows the address the lookup
service returns, or an error.

Two modules:

- `CepFilter` (`cep_filter.dfy`) — the keystroke filter of `handleCepChange`:
  every character outside `0-9` is removed and the first eight digits are kept.
  `StripNonDigits` models the global regex replace and `FormatCep` the replace
  followed by the slice. Lemmas prove that the result holds only digits, is at
  most eight long, keeps the digits in their original order and with their
  counts, distributes over concatenation, and that the filter is idempotent.
- `CepApp` (`cep_app.dfy`) — the component state (`cep`, `address`,
  `loading`, `error`, `isSearching`) and its handlers. The function `Step`
  gives the effect of a keystroke, of a button press (search mode: start a
  lookup; otherwise: reset the form) and of each of the three ways a lookup
  ends (not found, found, failure). The class `App` holds the five fields and
  updates them setter by setter; each of its methods is proved to produce
  `Step` of the old state and to keep the class invariant `Inv`. `Enabled`
  states what the rendered screen allows: typing only while the input is
  editable (`isSearching`), pressing only while the button is not disabled
  (`loading || cep.length !== 8`), and a completion only while `loading`.
  The network request is an explicit `Complete(outcome)` event.

Behaviour kept exactly as the code has it:

- A not-found answer and a failed request both leave `isSearching` true, so
  the input stays editable and the label stays "Buscar"; only a successful
  answer leaves search mode.
- The press handler does not check the CEP's length; the button's
  `disabled` condition is the only guard, modelled as the precondition of
  `App.FetchAddress` and as `Enabled(s, Press)`.
- A completion never reads `cep`, and the input stays editable while a
  lookup is loading, so `cep` can change while a request is outstanding.
  `EditDuringLookupCanStrandScreen` proves a consequence: typing a shorter
  CEP during a lookup that then succeeds reaches a state in which no event is
  enabled — the input is not editable and the button is disabled.

The input is editable exactly when `isSearching` (App.js:64), including while
a lookup is loading. Not-found and failure keep search mode (App.js:34-35,
42-44). A completion is applied whatever `cep` holds when it arrives; nothing
ties it to the CEP that started it.

## Model

| member | source | states |
|---|---|---|
| CepFilter.StripNonDigits | App.js:21 | removing non-digits yields only digits and never lengthens the text |
| CepFilter.FormatCep | App.js:20-23 | the stored CEP is a well-formed CEP (digits only, at most 8), a prefix of the input's digits, and all of them when fewer than 8 |
| CepFilter.StripConcat | App.js:21 | the digit filter distributes over concatenation: each character is kept or dropped independently |
| CepFilter.StripFixesExactlyDigits | App.js:21 | the digit filter leaves a string unchanged if and only if it holds only digits |
| CepFilter.StripCounts | App.js:21 | each digit occurs in the result as often as in the input; no other character occurs |
| CepFilter.StripIsSubsequence | App.js:21 | the digits are kept in their original order |
| CepFilter.FormatIsSubsequence | App.js:21 | the stored CEP is an in-order subsequence of the keystroke text |
| CepFilter.FormatFixesExactlyCeps | App.js:21 | the input filter leaves a string unchanged if and only if it is digits only and at most 8 long |
| CepFilter.FormatIdempotent | App.js:21 | filtering an already filtered value returns it unchanged |
| CepFilter.TypeOneMore | App.js:20-23 | appending a character to a stored CEP keeps it exactly when it is a digit and fewer than 8 digits are stored |
| CepFilter.FormatHyphenatedExample | App.js:21 | the filter expression maps "01001-000" to "01001000" |
| CepApp.Editable | App.js:64 | the input accepts keystrokes exactly when the screen is in search mode, that is, exactly when the button reads "Buscar" |
| CepApp.Disabled | App.js:71 | the button ignores presses while loading or while the CEP is not exactly 8 characters long |
| CepApp.Label | App.js:74 | the button reads "Buscar" in search mode and "Nova Busca" otherwise, and nothing else |
| CepApp.Enabled | App.js:63-71 | typing is possible only while editable, pressing only while not disabled, and a completion only while a lookup is loading |
| CepApp.Step | App.js:20-52 | the effect of each handler: the stored CEP stays well formed, a completion ends loading and leaves the CEP alone, and only a press in search mode starts loading |
| CepApp.ChangeTextUpdatesOnlyCep | App.js:20-23 | a keystroke stores a well-formed CEP drawn in order from the text; address, error, loading and search mode are untouched |
| CepApp.PressStartsLookup | App.js:26-29 | a press in search mode sets loading, clears error and address, keeps cep and search mode; the button is then disabled and the input still editable |
| CepApp.PressResetsForm | App.js:46-51 | a press outside search mode empties cep, clears address and error, returns to search mode, and the button is disabled until 8 digits are typed |
| CepApp.NotFoundStaysInSearchMode | App.js:33-40 | a not-found answer sets the not-found message and stops loading; no address, still in search mode, editable, label "Buscar" |
| CepApp.FoundShowsAddress | App.js:36-40 | a successful answer shows the returned address, leaves search mode, stops loading, shows no error; label "Nova Busca", input not editable |
| CepApp.FailureStaysInSearchMode | App.js:42-45 | a failed request sets the failure message (never the not-found one) and stops loading; no address, still in search mode |
| CepApp.OnlySuccessLeavesSearchMode | App.js:25-52 | the only event that takes the screen out of search mode is a successful answer |
| CepApp.CompletionIgnoresCep | App.js:33-45 | a completion's effect does not depend on cep and leaves cep as it was |
| CepApp.EditableWhileLoading | App.js:64 | while a lookup is loading the input accepts keystrokes, which change cep while loading stays set |
| CepApp.InitialSatisfiesInv | App.js:14-18 | the initial state is consistent, editable, labelled "Buscar", with the button disabled |
| CepApp.StepPreservesInv | App.js:20-52 | every event the screen allows keeps the state invariant |
| CepApp.RunPreservesInv | App.js:20-52 | every run of allowed events keeps the state invariant |
| CepApp.ReachableStatesAreConsistent | App.js:14-52 | in every reachable state: an address implies not searching, no error, not loading; loading implies searching, no address, no error; address and error never both shown |
| CepApp.EditDuringLookupCanStrandScreen | App.js:38-71 | typing a shorter CEP while loading, then a successful answer, reaches a state where neither typing nor pressing nor a completion is possible |
| CepApp.App.constructor | App.js:14-18 | the component starts with empty cep, no address, not loading, no error, in search mode |
| CepApp.App.HandleCepChange | App.js:20-23 | the keystroke handler performs the keystroke step and keeps the invariant |
| CepApp.App.FetchAddress | App.js:25-52 | the press handler, callable only when the button is enabled, performs the press step (start lookup or reset) and keeps the invariant |
| CepApp.App.ResolveLookup | App.js:33-45 | the answer and failure callbacks, callable only while loading, perform the completion step and keep the invariant |

## Left out

- The HTTP GET and its URL (App.js:31-32): network I/O. A lookup's result is
  the `Outcome` passed to `ResolveLookup` / the `Complete` event.
- Decoding of `response.data`: the not-found flag is taken as already decided
  (`NotFound`), and a successful answer is represented by the five fields the
  screen displays (`Address`), not the whole response object.
- Promise scheduling: each handler and each callback is one atomic step, as
  the batched setter calls are.
- Rendering, the loading and error texts' layout, the status bar, keyboard
  handling and all styles (App.js:54-177).
- The input's `maxLength` (App.js:65): it truncates the raw text, non-digits
  included, to 8 characters before the handler receives it, so a pasted
  "01001-000" reaches the handler as "01001-00". `ChangeText` carries whatever
  text arrives, of any length. The reachable values of `cep` are the same
  either way: every well-formed CEP is at most 8 characters and is its own
  filtered value (`FormatFixesExactlyCeps`).
- Text is a sequence of Unicode characters, not UTF-16 code units; the filter
  keeps only ASCII digits either way, so the stored value is the same.
