# validate.js — a Dafny model

A model of the client-side form-validation helper in `src/validate.js`:

- the built-in validators of `window.VALIDATORS` — `EQUAL` (strict equality),
  `REQUIRE` (not the empty string), `CYRILLIC_LNG` (only letters of `[а-яА-Я]`)
  and `EMAIL` (the fixed shape
  `^([A-Za-z0-9_\-.])+@([A-Za-z0-9_\-.])+\.([A-Za-z]{2,4})$`) — together with the
  Cyrillic filter that `CYRILLIC_LNG` and the `CLEAN_NOT_CYRILLIC_SYMBOLS`
  handler share (module `Validators`, `validators.dfy`);
- `VALID_ERROR_CONTROLLER`: the validator and handler registries, the result
  store keyed by instance identity, `hasError`, the submit decision of
  `sendForm`, and the bound validator instances that `getValidator` hands out,
  driven by `applyTo` and `run` (module `Controller`, `controller.dfy`).

The validators are pure functions over strings. `EMAIL` is decided by
splitting the string at its only `@` and its last `.`. The lemma
`EmailMatchesPattern` proves that this split check accepts exactly the strings
that have a split `local + "@" + domain + "." + tld` as the pattern reads it.
The controller is a class with three `map` fields. Its methods say what each
field holds afterwards. A bound instance is a class with `Option` fields for
the field, the identity and the last result.

Modelling conventions:

- A call argument is `Option<string>`. `None` stands for the `undefined` that a
  validator receives when the caller passes fewer arguments. `EQUAL` and
  `REQUIRE` treat it as JavaScript does. `CYRILLIC_LNG` throws on it (it calls
  `.replace` on `undefined`); `Apply` returns `None` for that, and `Run` then
  changes nothing. `RegExp.test` turns `undefined` into the text `"undefined"`,
  so `EMAIL` fails on it.
- A DOM field is reduced to its `id` and `name` attributes, each
  `Option<string>`. A missing attribute reads as `"undefined"`, so the identity
  is `validName + id + name` with no delimiter between the parts.
- `run` before `applyTo` only logs and then carries on. The result is stored
  under the key `"undefined"`, which is what a JavaScript object makes of an
  `undefined` key.
- `run` with a name that is not registered hands back the controller, not the
  instance (`RunOutcome.ReturnedController`).

## Model

| member | source | states |
|---|---|---|
| Validators.Equal | src/validate.js:12-14 | EQUAL holds exactly when both arguments are undefined or both are strings of the same length that agree at every position |
| Validators.Require | src/validate.js:15-17 | REQUIRE fails exactly on the empty string; undefined passes |
| Validators.StripNonCyrillic | src/validate.js:20 | the filter never lengthens its input, leaves only `[а-яА-Я]` letters, keeps the length exactly when every letter is in the class, and is then the identity |
| Validators.StripIsSubsequence | src/validate.js:20 | the filter only deletes: its result is a subsequence of its input |
| Validators.StripKeepsCyrillic | src/validate.js:20 | every letter of the class survives the filter as many times as it occurs |
| Validators.CyrillicLng | src/validate.js:18-22 | CYRILLIC_LNG holds exactly when every character lies in `а`..`я` or `А`..`Я` (so the empty string passes and `ё`, Latin letters and digits fail) |
| Validators.CleanNotCyrillic | src/validate.js:54-60 | the field is rewritten exactly when CYRILLIC_LNG fails; the text written is the filtered text: shorter, a subsequence of the old one, with every Cyrillic letter kept as often as it occurred, and passing CYRILLIC_LNG |
| Validators.IndexOf | src/validate.js:24 | the position found holds `c` and no earlier position does; no position means `c` does not occur |
| Validators.LastIndexOf | src/validate.js:24 | the position found holds `c` and no later position does; no position means `c` does not occur |
| Validators.Email | src/validate.js:23-26 | EMAIL as the split check at the only `@` and the last `.`; whatever it accepts matches the pattern (the converse is EmailMatchesPattern) |
| Validators.EmailMatchesPattern | src/validate.js:23-26 | the split check accepts a string exactly when it is a non-empty local part over `[A-Za-z0-9_.-]`, one `@`, a non-empty domain over the same class, `.`, and 2 to 4 ASCII letters |
| Validators.EmailSplitIsUnique | src/validate.js:24 | whatever split the pattern admits, the check finds it: the `@` is the only one and the TLD follows the last `.` |
| Validators.AtIsUnique | src/validate.js:24 | in any split the pattern admits, the first `@` of the string ends the local part (neither class contains `@`) |
| Validators.DotIsLast | src/validate.js:24 | in any split the pattern admits, the last `.` of the string starts the TLD (the TLD contains no `.`) |
| Validators.EmailAcceptsExamples | src/validate.js:24 | `a@b.co` matches, and so does `a@b.c.de`: the domain class admits dots |
| Validators.EmailRejectsExamples | src/validate.js:24 | `a@b.toolongtld` (TLD over four letters), `not-an-email` (no `@`) and `a@@b.co` (two `@`) do not match |
| Validators.EmailRejectsUndefined | src/validate.js:24-25 | the text `undefined` does not match |
| Validators.Apply | src/validate.js:11-27 | calling a built-in on an argument list gives EQUAL/REQUIRE/CYRILLIC_LNG/EMAIL's meaning on the first (and second) argument; it throws only for CYRILLIC_LNG on undefined; EMAIL on undefined is false |
| Controller.Identity | src/validate.js:146 | the identity is the validator name, then the id text, then the name text, with no delimiter and a missing attribute read as `undefined` |
| Controller.IdentityCollides | src/validate.js:146 | the fields (`a`, `bc`) and (`ab`, `c`) get the same identity, since the parts are joined with no delimiter; a field without an id gets the same identity as one whose id is the text `undefined` |
| Controller.HasFailureAfterSave | src/validate.js:116-118 | after saving `b` under `k`, some result fails exactly when `b` is false or some other entry already failed |
| Controller.ValidErrorController.constructor | src/validate.js:79-87 | a new controller has empty registries and an empty store, so no failure |
| Controller.ValidErrorController.GetValidStatus | src/validate.js:94-96 | the stored result for an identity, or undefined when it was never saved |
| Controller.ValidErrorController.SaveValidResult | src/validate.js:116-118 | the entry for `vId` becomes `result` and reads back as it; every other entry and both registries are unchanged |
| Controller.ValidErrorController.HasError | src/validate.js:235-242 | true exactly when some stored result is `false` (false on an empty store) |
| Controller.ValidErrorController.SendForm | src/validate.js:103-108 | the form is submitted exactly when no stored result is `false` |
| Controller.ValidErrorController.AttachValidator | src/validate.js:214-217 | the registry gains the given names, given entries replace same-named ones, all other entries stay; returns the controller |
| Controller.ValidErrorController.AttachHandlersAfterValid | src/validate.js:225-228 | the same merge for the handler registry |
| Controller.ValidErrorController.GetHandlerAfterValid | src/validate.js:199-206 | the registered handler, or the logging fallback exactly when the name is not registered |
| Controller.ValidErrorController.GetValidator | src/validate.js:125-191 | a fresh instance for the name, with no field, identity or result yet; the name is not checked here |
| Controller.BoundValidator.constructor | src/validate.js:126-137 | an instance starts with no field, identity or result |
| Controller.BoundValidator.ApplyTo | src/validate.js:144-148 | binds the field and sets the identity to name + id + name; the last result is kept |
| Controller.BoundValidator.Run | src/validate.js:176-189 | unknown name: returns the controller, store and instance unchanged; validator throws: nothing changes; otherwise the result becomes the instance's and overwrites the store entry under its identity (or under "undefined" when unbound) |
| Controller.BoundValidator.ProcessingAfterValidation | src/validate.js:156-170 | resolves the handler name (fallback exactly when unregistered) and passes an array of params as it is, any single value as a one-element list |
| Controller.RequireThenFill | src/validate.js:176-189 | REQUIRE run with `''` stores false and hasError holds; run again with a non-empty value on the same field stores true, hasError is false and the form is submitted |
| Controller.UnknownValidator | src/validate.js:181-184 | an unregistered validator's run returns the controller, stores nothing and leaves hasError false |
| Controller.RunWithoutApplyTo | src/validate.js:177-179 | run before applyTo still runs and stores its result under "undefined" |

## Left out

- The DOM handlers' effects: inserting and removing the error `div`, toggling
  the `has-error`/`has-success` classes, and writing the cleaned text back
  with `.val()`. `CleanNotCyrillic` gives only the text that would be written.
- CleanNotCyrillic: takes a string; the handler called with `undefined` throws
  (it calls `.replace` on it), which this function does not model.
- The context that `processingAfterValidation` attaches to handler function
  objects (`vId`, `validateJqObj`, `validStatus`), and the call of the
  handler. `ProcessingAfterValidation` models only which handler is chosen
  and which argument list it receives. The built-in handlers other than the
  error-message one read that context from the error-message handler, not
  from themselves; this is not modelled.
- `$(idForm).submit()` and every `console.log`: `SendForm` returns only the
  decision whether to submit.
- Validators supplied by callers: the registry maps names to the four
  built-ins only, so every stored result is a boolean.
- Arguments that are not strings or `undefined`, and JavaScript coercion of
  them. Keys inherited from `Object.prototype` (a validator named
  `toString`, say) are also not modelled.
- `$.extend` skips entries whose value is `undefined`; no entry of the model
  can be undefined.
- Strings are sequences of characters, not of UTF-16 code units. A character
  outside the Basic Multilingual Plane is one character here and two units
  in JavaScript, and the filter deletes both units, so the verdicts agree.
- The global wiring through `window` (lines 245-251) apart from the two
  registration maps, which are `DefaultValidators` and `DefaultHandlers`.
