# site-lacid `script.js`: the page helpers with decision logic

`script.js` is the shared browser script of the LACID site. Most of it is
DOM and CSS glue. This project models the five pieces of it that make
decisions, with the DOM, the timers and the host's IntersectionObserver
replaced by plain inputs:

- **E-mail check** (`validarEmail`), module `EmailValidation` in `email.dfy`.
  `ValidarEmail` is the language of the regular expression
  `^[^\s@]+@[^\s@]+\.[^\s@]+$`. A string is accepted when some '@' and some
  literal '.' split it into three non-empty runs without whitespace or '@'.
  `\s` is the ECMAScript set: the WhiteSpace and LineTerminator code points.
  A lemma proves this equal to a description that does not mention the
  split: exactly one '@', no whitespace, a non-empty local part, and a '.'
  strictly inside the domain.
- **Scroll activator** (`animateOnScroll`), module `ScrollAnimation` in
  `scroll_animation.dfy`. The class `ScrollAnimator` holds the page's
  `data-animate` values, the observer's target set and every element's
  class list. Its constructor is the start-up scan: it queries
  `[data-animate]` and observes each element it finds. `OnIntersection` is
  the observer callback over one batch of entries. It is proved equal to the
  function `Dispatch`, and the lemmas about `Dispatch` and `Run` state what
  activation does: it is monotone, happens at most once per element, adds
  only the element's own marker, and, when no entry's `data-animate` value
  is empty or holds whitespace, does not depend on the order of the entries
  (`FaultyOrderMatters` shows a batch where it does). `Run` covers a
  sequence of batches as the host delivers them.
- **External links** (`configurarLinksExternos`), module `ExternalLinks` in
  `external_links.dfy`. The method rewrites an array of link records in
  place. The host test is `includes`, a substring test, and the model keeps
  that quirk.
- **Logo easter egg** (the `clickCount` click handler), module
  `LogoEasterEgg` in `logo_click.dfy`. The class `LogoClickCounter` holds the
  captured counter. `OnClick` reports whether the confetti fires.
- **Font toggle** (`toggleTamanhoFonte` and the `keydown` shortcut), module
  `FontAccessibility` in `font_toggle.dfy`. The class `FontToggle` holds the
  flag and the body's inline font size.

The activator has one error path that is easy to miss. `classList.add`
throws on an empty `data-animate` value, and on a value containing ASCII
whitespace (`data-animate="fade in"`). The
exception leaves the observer callback, so the rest of that batch is
skipped. The element stays observed and its class list is unchanged.
`Dispatch` reports this case as `threw`.

Inputs that stand in for the host: entries carry `isIntersecting` as a
flag, because the 10% threshold geometry is computed by the browser. A
link's host name is the one the browser parsed from its URL, and the page's
host name is a parameter. The host reports, in one batch, only targets
still observed when the batch starts, as IntersectionObserver does after
`unobserve`; `Run` takes this as its assumption on the batches. The body's inline font size before the first
toggle is a parameter of the `FontToggle` constructor.

## Model

| member | source | states |
|---|---|---|
| EmailValidation.ValidarEmail | script.js:75-77 | the language of the anchored expression: some '@' and some literal '.' split the string into three non-empty `[^\s@]` runs; an accepted string has at least five characters, an '@' and a '.' |
| EmailValidation.ValidarEmailCharacterised | script.js:75-77 | the expression accepts a string iff it has exactly one '@', no `\s` character, a non-empty part before the '@', and a '.' strictly between the first and last characters of the part after it |
| EmailValidation.NoAtSignRejected | script.js:76 | a string without '@' is rejected |
| EmailValidation.TwoAtSignsRejected | script.js:76 | a string with two or more '@' is rejected |
| EmailValidation.WhitespaceRejected | script.js:76 | a string with any `\s` character anywhere is rejected |
| EmailValidation.DomainEdgeDotRejected | script.js:76 | if every '.' after an '@' is the first or last character of the rest of the string (a domain whose only dot starts or ends it, or a domain with no dot), the string is rejected |
| EmailValidation.EmptyLocalPartRejected | script.js:76 | a string starting with '@' is rejected |
| EmailValidation.Samples | script.js:75-77 | `lacid@ifs.edu.br`, `a@b..c` and `a@.b.c` are accepted; `lacid@ifs` and `a @b.c` are rejected |
| ScrollAnimation.Handle | script.js:129-133 | one entry of the callback changes at most its own target: an entry out of view changes nothing; `classList.add` throws exactly on an empty or whitespace-holding value and then changes nothing; otherwise the target gains its marker and leaves the observed set |
| ScrollAnimation.Dispatch | script.js:127-134 | the callback on one batch never observes anything anew, only grows class lists and only by the element's own marker, adds the marker to every element it unobserves, and keeps the set of elements |
| ScrollAnimation.DispatchThrowsIff | script.js:130-131 | the callback throws iff some intersecting entry's `data-animate` value is empty or contains ASCII whitespace |
| ScrollAnimation.DispatchStopsAtFault | script.js:128-133 | a batch has exactly the effect of its entries before the first faulty one, and throws iff there is a faulty one |
| ScrollAnimation.DispatchUntouched | script.js:128-129 | an element that no intersecting entry names keeps its class list and its observed status |
| ScrollAnimation.DispatchClean | script.js:128-134 | a batch with no faulty entry does not throw, removes exactly the intersecting targets from the observed set, and adds to each of them exactly its own `data-animate` value, leaving every other class list as it was |
| ScrollAnimation.DispatchSettles | script.js:128-134 | a batch with no faulty entry leaves the document in the closed form `Settled`, whatever the order of its entries |
| ScrollAnimation.SettledIdempotent | script.js:131-132 | re-adding present classes and unobserving unobserved elements changes nothing |
| ScrollAnimation.DispatchIdempotent | script.js:131-132 | handling the same batch a second time changes nothing |
| ScrollAnimation.DispatchOrderIrrelevant | script.js:128-134 | two orderings of the same entries, none faulty, have the same effect |
| ScrollAnimation.FaultyOrderMatters | script.js:128-133 | two orderings of the same entries, one of them with the value `fade in`, have different effects: the valid entry is handled only when it comes before the faulty one |
| ScrollAnimation.Run | script.js:127-135 | over any run of batches the host can deliver, the observed set only shrinks and each class list only grows, by at most the element's own marker |
| ScrollAnimation.RunKeepsActivated | script.js:132 | once an element is unobserved, no later batch changes its class list, and it never re-enters the observed set |
| ScrollAnimation.NoMarkersNoEffect | script.js:125-137 | with no `data-animate` element nothing is observed, and no run of callbacks changes any class |
| ScrollAnimation.QueryMarked | script.js:125 | the `[data-animate]` query returns exactly the document's elements that carry the attribute |
| ScrollAnimation.ScrollAnimator.constructor | script.js:125-137 | start-up observes exactly the elements that carry `data-animate`, and changes no class list |
| ScrollAnimation.ScrollAnimator.OnIntersection | script.js:127-134 | the callback's effect on the observed set and the class lists, and whether it throws, is `Dispatch` of the state before it |
| ExternalLinks.Includes | script.js:146 | `s.includes(sub)` holds iff `sub` occurs in `s` at some index |
| ExternalLinks.IsExternal | script.js:144-146 | the selector `[href^="http"]` and the `includes` test; a link it selects has an `http` URL, and the page's host name is non-empty and differs from the link's |
| ExternalLinks.Configure | script.js:144-150 | one turn of `links.forEach`: `href` and host name are kept, so the link is still selected or not after the rewrite |
| ExternalLinks.ConfigurarLinksExternos | script.js:143-151 | every link of the array becomes `Configure` of itself, and nothing else is written |
| ExternalLinks.ConfigureExact | script.js:144-150 | a link changes only if its `href` starts with "http" and its host name does not contain the page's; such a link gets exactly `target="_blank"` and `rel="noopener noreferrer"`; `href` and host name are never changed; any other link is left as it was |
| ExternalLinks.ConfigureIdempotent | script.js:146-149 | rewriting a link twice is rewriting it once |
| ExternalLinks.SameHostUntouched | script.js:146 | a link to the page's own host is left alone |
| ExternalLinks.EmptyPageHostRewritesNothing | script.js:146 | on a page with an empty host name no link is rewritten |
| ExternalLinks.OtherHostRewritten | script.js:144-149 | an `http`/`https` link whose host name is shorter than the page's is rewritten |
| ExternalLinks.ContainingHostUntouched | script.js:146 | the foreign host `notlacid.com` is left alone on the page `lacid.com`, because of the substring test |
| LogoEasterEgg.Click | script.js:238-243 | from a count in 0..2, one click advances the count to `(c + 1) % 3` and fires exactly when it wraps to 0 |
| LogoEasterEgg.Clicks | script.js:237-244 | `n` clicks in a row, recording one fire flag per click |
| LogoEasterEgg.ClicksFrom | script.js:235-244 | from any count in 0..2, after `n` clicks the count is `(c + n) % 3` and still in 0..2, and a click fires iff it brings the total to a multiple of 3 |
| LogoEasterEgg.EveryThirdClickFires | script.js:235-244 | from a fresh page the confetti fires on clicks 3, 6, 9, ... and on no others |
| LogoEasterEgg.FireCountFrom | script.js:238-243 | from count `c`, `n` clicks fire `(c + n) / 3` times |
| LogoEasterEgg.FireCountFromZero | script.js:238-243 | from a fresh page, `n` clicks fire `n / 3` times |
| LogoEasterEgg.LogoClickCounter.constructor | script.js:235 | the counter starts at 0 |
| LogoEasterEgg.LogoClickCounter.OnClick | script.js:237-244 | the counter stays in 0..2; a click fires iff the counter was 2, and the counter becomes `(old + 1) % 3` |
| FontAccessibility.Toggle | script.js:299-307 | the flag flips and the inline size agrees with it afterwards ('1.15em' when set, '' when not), whatever the state before |
| FontAccessibility.ToggleTwice | script.js:299-307 | two toggles from a state where flag and size agree restore that state |
| FontAccessibility.InitialInlineSizeLost | script.js:297-306 | a non-empty inline size present before the first toggle is replaced by '' after two toggles |
| FontAccessibility.IsFontShortcut | script.js:311 | the listener's guard: Ctrl held with the key '+' or '=' |
| FontAccessibility.AfterKeys | script.js:310-315 | from any state, after a key sequence the flag has flipped once per shortcut press, and the state is either untouched or coupled |
| FontAccessibility.AfterKeysParity | script.js:310-315 | from an agreeing state, any key sequence toggles the state iff it holds an odd number of Ctrl+'+'/Ctrl+'=' presses; other keys never change it |
| FontAccessibility.FontToggle.constructor | script.js:297 | the flag starts false and the body keeps its inline size |
| FontAccessibility.FontToggle.ToggleTamanhoFonte | script.js:299-307 | the flag flips and the size becomes '1.15em' iff the flag is now set, '' otherwise |
| FontAccessibility.FontToggle.OnKeyDown | script.js:310-315 | the default is prevented and the toggle runs iff Ctrl is held and the key is '+' or '='; otherwise nothing changes |

## Left out

- `mostrarLoading` and `esconderLoading` (script.js:9-58): they only build DOM nodes and CSS text and remove a node on a timer. There is nothing to decide.
- `formatarData` (script.js:63-70): a call into the host's `Date` and `pt-BR` locale formatting.
- `copiarParaClipboard` (script.js:83-91): an asynchronous call into the host clipboard.
- `debounce` (script.js:96-106): its behaviour rests on timers and the event loop.
- `isElementVisible` (script.js:111-119): floating-point comparisons of host geometry.
- The 10% intersection threshold (script.js:135): the host computes intersection, so entries carry `isIntersecting` as an input.
- `addRippleEffect` (script.js:156-201) and the particles of `criarConfetti` (script.js:247-292): floating-point geometry, `Math.random`, CSS animations and timers. Only the decision to fire is modelled.
- The `DOMContentLoaded` start-up wiring and the `window.LACID` export (script.js:206-227): wiring only. The order in which start-up calls the helpers does not matter to the model, because they share no state.
- The `if (logoLACID)` guard (script.js:234): a page without the logo installs no handler, so the model has no `LogoClickCounter` there.
- ScrollAnimation.ScrollAnimator.OnIntersection: `getAttribute` is called at callback time, but the model reads the `data-animate` values fixed at start-up. An attribute changed or removed after start-up (where `getAttribute` would return `null` and the class "null" would be added) is not modelled.
- ScrollAnimation.Dispatch: a class list is a set. The order of tokens in the DOMTokenList is not modelled.
- EmailValidation.ValidarEmail: Dafny characters are Unicode scalar values, while the expression without the `u` flag runs over UTF-16 code units. A character outside the Basic Multilingual Plane is one character here and two code units there. Neither unit is whitespace or '@', so the accept/reject answer is the same. Arguments that are not strings, which `test` would convert first, are not modelled.
- LogoEasterEgg.LogoClickCounter.OnClick: `clickCount` is a JavaScript number. The counter never exceeds 3, so the model uses an unbounded integer.
