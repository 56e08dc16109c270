# cafe-haven-explore: search keys, preferences and the profile page

A Dafny model of three pieces of the cafe-haven-explore web app.

- **Search normalisation** (`src/lib/normalize-text.ts`). `normalizeVietnamese` turns text into a search key. It lower-cases the text and replaces each precomposed Vietnamese vowel and `đ` by its base letter. It then decomposes the rest (NFD), deletes the combining marks U+0300..U+036F and trims the ends. `flexibleMatch` accepts a query when its key occurs in the target's key, or when its lower-case form occurs in the target's lower-case form.
- **Preferences form** (`src/pages/Preferences.tsx`). A record of three checkbox lists (cafe types, price ranges, amenities) and a maximum distance. A checkbox toggles its value in one list. The distance select replaces the distance.
- **Profile page** (`src/pages/Profile.tsx`). It lists the signed-in user's reviews and lets the user delete or edit them. It keeps two lists in step: every user's reviews, stored under `cafe_comments`, and the page's own `myReviews`. Saving an edit stores the mean of the four star ratings as the overall rating. It also carries a copy of the preferences form.

Files:

- `sequences.dfy`: `Array.prototype.filter` on sequences, with the facts the other modules use about it.
- `js_string.dfy`: the `String.prototype` operations the normaliser calls.
  - `toLowerCase` and `normalize("NFD")` are modelled on a restricted alphabet.
  - `trim` and `includes` are modelled exactly.
- `normalize_text.dfy`: the normaliser, the matcher and their properties.
- `preferences.dfy`: the preferences record and its two updates.
- `profile.dfy`: the review-list functions, the overall rating, the cafe-name lookup, and the `ProfilePage` class.
  - The class's methods are the page's event handlers.
  - Its fields are the page state: the stored comments, `myReviews`, the review being edited, whether the dialog is open, and the preferences.

The central results:

- A search key contains only lower-case characters outside the table, none decomposable and none a combining mark.
- Normalising a key gives the key back, and the case of the input does not matter.
- The seven replacement steps equal one character-to-character mapping.
- Matching is reflexive and case-blind. It is exactly the disjunction of the two substring tests.
- A toggle flips exactly the clicked checkbox, and toggling twice restores the list.
- Deleting or saving a review keeps `myReviews` equal to the current user's stored reviews. For saving, this requires that no other user's review carries the edited id.

## Model

| member | source | states |
|---|---|---|
| Sequences.Filter | src/pages/Profile.tsx:131-133 | `filter` keeps exactly the elements the callback accepts, no more elements than the input, in input order |
| Sequences.FilterMultiplicity | src/pages/Preferences.tsx:33 | every kept element keeps its full multiplicity, every rejected one is gone |
| Sequences.FilterAroundOne | src/lib/normalize-text.ts:20 | filtering drops one rejected element between two runs of accepted ones and keeps both runs |
| JsString.LowerChar | src/lib/normalize-text.ts:9 | characters below 'A' are never changed by lower-casing |
| JsString.LowerCharIdempotent | src/lib/normalize-text.ts:9 | lower-casing a lower-cased character changes nothing |
| JsString.ToLower | src/lib/normalize-text.ts:9 | `toLowerCase` keeps the length and lowers each character on its own |
| JsString.ToLowerIdempotent | src/lib/normalize-text.ts:9 | lower-casing twice is lower-casing once |
| JsString.ToLowerFixes | src/lib/normalize-text.ts:9 | text that is already lower case is unchanged |
| JsString.ToLowerSlice | src/lib/normalize-text.ts:37 | lower-casing commutes with taking a slice, so a literal occurrence survives lower-casing |
| JsString.Decompose | src/lib/normalize-text.ts:19 | a character without a decomposition stays as it is; a decomposable one becomes an ASCII letter and a combining mark, and the letter is lower case when the character was |
| JsString.DecomposeExamples | src/lib/normalize-text.ts:19 | É, ç, ñ and ÿ decompose to letter plus mark; ø has no decomposition |
| JsString.Nfd | src/lib/normalize-text.ts:19 | the modelled NFD at least keeps and at most doubles the length |
| JsString.NfdConcat | src/lib/normalize-text.ts:19 | NFD works character by character: it distributes over concatenation |
| JsString.NfdAlphabet | src/lib/normalize-text.ts:19 | after NFD no decomposable character is left; every character is from the input, an ASCII letter or a combining mark |
| JsString.NfdKeepsLowerCase | src/lib/normalize-text.ts:19 | NFD of lower-case text is lower case |
| JsString.NfdOfDecomposed | src/lib/normalize-text.ts:19 | NFD leaves text without decomposable characters unchanged |
| JsString.TrimStart | src/lib/normalize-text.ts:21 | the result is a suffix; everything dropped is whitespace; it does not start with whitespace |
| JsString.TrimEnd | src/lib/normalize-text.ts:21 | the result is a prefix; everything dropped is whitespace; it does not end with whitespace |
| JsString.Trim | src/lib/normalize-text.ts:21 | `trim` returns a slice of the input, dropping only whitespace outside it, and neither end of the result is whitespace |
| JsString.TrimKeepsChars | src/lib/normalize-text.ts:21 | trimming introduces no character |
| JsString.TrimOfTrimmed | src/lib/normalize-text.ts:21 | text with no whitespace at either end is unchanged by `trim` |
| JsString.Includes | src/lib/normalize-text.ts:36-37 | `includes` is true exactly when the query occurs as a contiguous block of the text |
| NormalizeText.BaseLetter | src/lib/normalize-text.ts:11-17 | the table as one mapping: its output is never a table character, characters outside the table are kept, and table characters go to one of a, e, i, o, u, y, d |
| NormalizeText.ReplaceTable | src/lib/normalize-text.ts:11-17 | the seven chained `replace` calls keep the length and map every character by `BaseLetter` |
| NormalizeText.ReplaceTableFixes | src/lib/normalize-text.ts:11-17 | text without table characters passes the table unchanged |
| NormalizeText.InTableRange | src/lib/normalize-text.ts:11-17 | every table character lies in U+00E0..U+01B0 or U+1EA0..U+1EF9 |
| NormalizeText.StripMarks | src/lib/normalize-text.ts:20 | removes exactly the characters U+0300..U+036F and keeps the rest in order, each with its full multiplicity |
| NormalizeText.NormalizeVietnamese | src/lib/normalize-text.ts:5-22 | the empty string gives the empty key; a key never starts or ends with whitespace |
| NormalizeText.NormalizeAlphabet | src/lib/normalize-text.ts:8-21 | every character of a key is lower case, outside the table, not decomposable and not a combining mark |
| NormalizeText.NormalizeOnlyDeletes | src/lib/normalize-text.ts:8-21 | the table keeps the length, and trimming never makes the stripped text longer |
| NormalizeText.PipelineFixesKeyText | src/lib/normalize-text.ts:8-21 | text made of key characters passes lower-casing, the table, NFD and mark removal unchanged |
| NormalizeText.NormalizeIdempotent | src/lib/normalize-text.ts:5-22 | the key of a key is the key itself |
| NormalizeText.NormalizeIgnoresCase | src/lib/normalize-text.ts:9 | lower-casing the input first does not change its key |
| NormalizeText.NormalizeHaiBaTrung | src/lib/normalize-text.ts:2-3 | the documented example: "Hai Bà Trưng" gives "hai ba trung" |
| NormalizeText.NormalizeDaNang | src/lib/normalize-text.ts:9-17 | an upper-case Đ reaches the table through lower-casing: "Đà Nẵng" gives "da nang" |
| NormalizeText.NormalizeCafe | src/lib/normalize-text.ts:8-21 | "CAFÉ" gives "cafe": É is lowered and the table's e class replaces it |
| NormalizeText.NormalizeNino | src/lib/normalize-text.ts:8-21 | "NIÑO" gives "nino": ñ is outside the table, so NFD splits off its tilde and mark removal deletes it |
| NormalizeText.NfdAroundOneChar | src/lib/normalize-text.ts:19 | NFD of text with one decomposable character expands only that character |
| NormalizeText.StripOneMark | src/lib/normalize-text.ts:20 | mark removal deletes a combining mark between two mark-free strings and keeps both |
| NormalizeText.NormalizeTrung | src/lib/normalize-text.ts:5-22 | a lower-case ASCII word is its own key |
| NormalizeText.FlexibleMatch | src/lib/normalize-text.ts:28-39 | false when either input is empty; otherwise true exactly when the query's key occurs in the target's key or the lower-case query occurs in the lower-case target |
| NormalizeText.LiteralOccurrenceMatches | src/lib/normalize-text.ts:37 | a non-empty query that occurs literally in the target matches |
| NormalizeText.KeyOccurrenceMatches | src/lib/normalize-text.ts:36 | a query whose key occurs in the target's key matches |
| NormalizeText.FlexibleMatchReflexive | src/lib/normalize-text.ts:28-39 | every non-empty string matches itself |
| NormalizeText.WhitespaceIsKeyChar | src/lib/normalize-text.ts:8-21 | whitespace is not touched by lower-casing, the table, NFD or mark removal |
| NormalizeText.BlankTrimsToEmpty | src/lib/normalize-text.ts:21 | whitespace-only text trims to the empty string |
| NormalizeText.BlankQueryMatchesAll | src/lib/normalize-text.ts:29-36 | a whitespace-only query passes the empty-input guard, has the empty key and so matches every non-empty target |
| NormalizeText.FlexibleMatchIgnoresCase | src/lib/normalize-text.ts:28-39 | the case of either argument does not change the verdict |
| NormalizeText.FlexibleMatchExamples | src/lib/normalize-text.ts:28-39 | an empty target or query never matches; "cat" is found in "Category List" |
| NormalizeText.FlexibleMatchAcrossDiacritics | src/lib/normalize-text.ts:36 | "trung" finds "Hai Bà Trưng" through the key branch |
| NormalizeText.FlexibleMatchKeepsDiacritics | src/lib/normalize-text.ts:37 | "résumé" finds "résumé bar" through the lower-case branch |
| Preferences.InitialPreferences | src/pages/Preferences.tsx:20-25 | the form starts with three empty lists and a distance of "5" |
| Preferences.WithList | src/pages/Preferences.tsx:30-31 | the spread-and-key update sets the named list and keeps the other lists and the distance |
| Preferences.ToggleValue | src/pages/Preferences.tsx:32-34 | a present value is removed with every copy, other elements keep their multiplicity and order; an absent value is appended once at the end |
| Preferences.ToggleArrayPreference | src/pages/Preferences.tsx:27-37 | only the named list changes, by `ToggleValue`; the other lists and the distance are unchanged |
| Preferences.SelectMaxDistance | src/pages/Preferences.tsx:120 | the distance becomes the chosen value and every list is unchanged |
| Preferences.ToggleFlipsChecked | src/pages/Preferences.tsx:81-82 | a toggle flips the clicked checkbox and leaves every other checkbox of every list as it was |
| Preferences.ToggleTwiceRestores | src/pages/Preferences.tsx:32-34 | toggling an absent value twice gives back the original list |
| Preferences.ToggleTwiceRestoresPreferences | src/pages/Preferences.tsx:27-37 | toggling an unticked checkbox twice gives back the original preferences |
| Profile.UserReviewsOf | src/pages/Profile.tsx:80-82 | the stored reviews whose username is the user's, each with its stored multiplicity, in stored order |
| Profile.WithoutReview | src/pages/Profile.tsx:129-135 | no review with the id is left; every other review is kept with its multiplicity, in order |
| Profile.ReplaceReview | src/pages/Profile.tsx:155-160 | same length and ids; exactly the entries with the edited id are replaced, all others kept |
| Profile.DeleteKeepsUserView | src/pages/Profile.tsx:129-135 | deleting from the stored list and then picking the user's reviews equals deleting from the user's reviews |
| Profile.ReplaceKeepsUserView | src/pages/Profile.tsx:155-160 | when only the editing user's reviews carry the id, replacing commutes with picking the user's reviews |
| Profile.OverallRating | src/pages/Profile.tsx:146-151 | the mean of four ratings in 1..5 lies in [1, 5]; four equal ratings give that rating |
| Profile.OverallRatingBetween | src/pages/Profile.tsx:146-151 | the mean lies between any common lower and upper bound of the four ratings |
| Profile.WithRating | src/pages/Profile.tsx:546-600 | a star click sets the clicked aspect's rating to the star; the other three ratings, id, cafe, author, text, overall rating, date and timestamp are kept |
| Profile.ClickedStarsGiveStarRating | src/pages/Profile.tsx:546-600 | after a star click on each aspect, all four ratings are in 1..5 and their mean is in [1, 5] |
| Profile.Saved | src/pages/Profile.tsx:146-153 | the saved review's overall rating is the mean of its four star ratings, every other field is the edited copy's, and the rating is in [1, 5] when the star ratings are |
| Profile.SavedRatingInStarRange | src/pages/Profile.tsx:142-164 | after saving a star-rated edit, every review with its id has an overall rating in [1, 5] |
| Profile.FindCafe | src/pages/Profile.tsx:168 | `find` gives nothing exactly when no cafe has the id, and otherwise the first cafe with it |
| Profile.GetCafeName | src/pages/Profile.tsx:166-170 | the name of the first cafe with the id, or "Unknown Cafe" when there is none |
| Profile.ProfilePage.constructor | src/pages/Profile.tsx:47-58 | the initial state: no own reviews, nothing being edited, the dialog closed, initial preferences |
| Profile.ProfilePage.LoadReviews | src/pages/Profile.tsx:60-84 | with a user, the page lists exactly that user's stored reviews; saved preferences replace the current ones; nothing else changes |
| Profile.ProfilePage.DeleteReview | src/pages/Profile.tsx:129-135 | both lists lose the review, no entry with the id is left, and a page that listed a user's stored reviews still does |
| Profile.ProfilePage.EditReview | src/pages/Profile.tsx:137-140 | the dialog opens on the review; the lists are unchanged |
| Profile.ProfilePage.RateAspect | src/pages/Profile.tsx:546-600 | the edited copy gets the clicked star for that aspect; nothing else changes |
| Profile.ProfilePage.SetText | src/pages/Profile.tsx:607 | the edited copy gets the typed text; nothing else changes |
| Profile.ProfilePage.CancelEdit | src/pages/Profile.tsx:613 | the dialog closes and the edited copy is kept |
| Profile.ProfilePage.SaveEdit | src/pages/Profile.tsx:142-164 | without an edited review nothing changes; otherwise the recomputed review replaces its id in both lists, the dialog closes and the edit is cleared, and the lists stay in step when only this user's reviews carry the id |
| Profile.ProfilePage.TogglePreference | src/pages/Profile.tsx:86-96 | the preferences become `ToggleArrayPreference` of the old ones; the reviews are unchanged |
| Profile.ProfilePage.ChooseMaxDistance | src/pages/Profile.tsx:387-388 | the preferences become `SelectMaxDistance` of the old ones; the reviews are unchanged |

## Left out

- `toLowerCase` is modelled on a restricted alphabet.
  - Covered: ASCII, Latin-1 and the Vietnamese letters.
  - Every other character is kept, unlike a JavaScript runtime.
  - Mappings that change the length (U+0130) are not modelled.
- `normalize("NFD")` decomposes only the Latin-1 letters.
  - Other composed characters are kept whole, for example letters outside Latin-1 such as ạ, or Latin Extended-A letters.
  - Canonical reordering of combining marks is not modelled.
  - Combining marks in the input are kept as they are.
- Strings are sequences of characters. JavaScript's UTF-16 code units, and so characters outside the Basic Multilingual Plane, are not modelled.
- `localStorage` and JSON (de)serialisation are not modelled. The stored `cafe_comments` list is the field `storedComments`. The saved preferences reach `LoadReviews` as a parameter, with `None` standing for a record without a `cafeTypes` field.
- Loading and saving the profile record (name, e-mail, phone, avatar) is not modelled. Neither are `handleSaveProfile`, `handleSavePreferences` and the form's `handleSubmit`/`handleSkip`: each only writes to storage, shows a toast or navigates.
- The avatar upload (`FileReader`, the 5 MB size check), toasts, navigation, refs and all rendering are not modelled. This includes the star and `toFixed` display and `Math.round` of the overall rating.
- `getAllCafes` lives in a module that is not part of this model. `GetCafeName` takes the cafe list as a parameter and reads only a cafe's id and name.
- `Profile.OverallRating` computes the mean over reals. With integer ratings, the floating-point division by 4 in the source is exact, so nothing is lost.
- `src/contexts/ChatContext.tsx` is not part of this model. It only forwards to `getAllCafes` and `localStorage`.
- `toggleArrayPreference` accepts any key of the record, including `maxDistance`. The model's `ListKey` covers only the three list keys, the only ones any checkbox passes. Passed `maxDistance`, the source would run `includes`/`filter`/spread on a string.
- Profile.tsx's copy of `toggleArrayPreference` (lines 86-96) is identical to the one in Preferences.tsx. It is modelled once, as `Preferences.ToggleArrayPreference`, which `ProfilePage.TogglePreference` calls.
- The `isLoggedIn` flag is always true, so its sign-in screen is never shown and is not modelled.
- `Profile.ProfilePage.RateAspect`: the source renders the star buttons only while a review is being edited, so the method requires one. It requires a star in 1..5 because only the buttons 1..5 exist.
