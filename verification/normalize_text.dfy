/**
 * Diacritic-insensitive search keys and matching for Vietnamese text.
 *
 * `NormalizeVietnamese` lower-cases its input, replaces every precomposed
 * Vietnamese vowel and `đ` by its base Latin letter, decomposes what is left
 * (NFD), deletes the combining marks U+0300..U+036F and trims the ends.
 * `FlexibleMatch` accepts a query when its key occurs in the target's key, or
 * when its lower-case form occurs in the target's lower-case form.
 */
module NormalizeText {
  import opened JsString
  import opened Sequences

  // ------------------------------------------------------- substitution table

  /** The character classes of the table; each is replaced by the letter after it. */
  const AVariants: set<char> := {'à', 'á', 'ạ', 'ả', 'ã', 'â', 'ầ', 'ấ', 'ậ', 'ẩ', 'ẫ', 'ă', 'ằ', 'ắ', 'ặ', 'ẳ', 'ẵ'}
  const EVariants: set<char> := {'è', 'é', 'ẹ', 'ẻ', 'ẽ', 'ê', 'ề', 'ế', 'ệ', 'ể', 'ễ'}
  const IVariants: set<char> := {'ì', 'í', 'ị', 'ỉ', 'ĩ'}
  const OVariants: set<char> := {'ò', 'ó', 'ọ', 'ỏ', 'õ', 'ô', 'ồ', 'ố', 'ộ', 'ổ', 'ỗ', 'ơ', 'ờ', 'ớ', 'ợ', 'ở', 'ỡ'}
  const UVariants: set<char> := {'ù', 'ú', 'ụ', 'ủ', 'ũ', 'ư', 'ừ', 'ứ', 'ự', 'ử', 'ữ'}
  const YVariants: set<char> := {'ỳ', 'ý', 'ỵ', 'ỷ', 'ỹ'}
  const DVariants: set<char> := {'đ'}

  /** A character the table replaces. */
  predicate InTable(c: char) {
    c in AVariants || c in EVariants || c in IVariants || c in OVariants ||
    c in UVariants || c in YVariants || c in DVariants
  }

  /** The table read as one mapping from each listed character to its base letter. */
  function BaseLetter(c: char): (r: char)
    ensures !InTable(r)
    ensures !InTable(c) ==> r == c
    ensures c < '\U{00E0}' ==> r == c
    ensures InTable(c) ==> r in "aeiouyd"
  {
    if c in AVariants then 'a'
    else if c in EVariants then 'e'
    else if c in IVariants then 'i'
    else if c in OVariants then 'o'
    else if c in UVariants then 'u'
    else if c in YVariants then 'y'
    else if c in DVariants then 'd'
    else c
  }

  /** `s.replace(/[\u0300-\u036f]/g, "")`: deletes every combining mark, keeps the rest. */
  function ReplaceClass(s: string, cls: set<char>, base: char): (r: string)
    ensures |r| == |s|
    ensures forall i :: 0 <= i < |s| ==> r[i] == (if s[i] in cls then base else s[i])
  {
    seq(|s|, i requires 0 <= i < |s| => if s[i] in cls then base else s[i])
  }

  /** The seven `replace` calls, in source order. The classes are disjoint and no
      replacement letter is in a later class, so the chain maps each character on
      its own: the result is the input with `BaseLetter` applied at every index. */
  function ReplaceTable(s: string): (r: string)
    ensures |r| == |s|
    ensures forall i :: 0 <= i < |s| ==> r[i] == BaseLetter(s[i])
  {
    var a := ReplaceClass(s, AVariants, 'a');
    var e := ReplaceClass(a, EVariants, 'e');
    var i := ReplaceClass(e, IVariants, 'i');
    var o := ReplaceClass(i, OVariants, 'o');
    var u := ReplaceClass(o, UVariants, 'u');
    var y := ReplaceClass(u, YVariants, 'y');
    ReplaceClass(y, DVariants, 'd')
  }

  // ------------------------------------------------------------ mark removal

  /** The filter that keeps everything except a combining mark. */
  function IsNotMark(c: char): bool {
    !IsCombiningMark(c)
  }

  /** `s.replace(/[̀-ͯ]/g, "")` */
  function StripMarks(s: string): (r: string)
    ensures |r| <= |s|
    ensures forall x :: x in r <==> x in s && !IsCombiningMark(x)
    ensures forall x :: multiset(r)[x] == if IsCombiningMark(x) then 0 else multiset(s)[x]
    ensures IsSubsequence(r, s)
  {
    FilterMultiplicity(s, IsNotMark);
    Filter(s, IsNotMark)
  }

  // ---------------------------------------------------------------- pipeline

  /** A character that can occur in a search key: lower case, outside the table,
      not decomposable, not a combining mark. */
  predicate IsKeyChar(c: char) {
    LowerChar(c) == c && !InTable(c) && !HasDecomposition(c) && !IsCombiningMark(c)
  }

  /** The lower-cased, table-substituted text: its characters are lower case and
      none of them is in the table. */
  lemma LoweredSubstitutedChars(text: string)
    ensures forall x :: x in ReplaceTable(ToLower(text)) ==> LowerChar(x) == x && !InTable(x)
  {
    var l := ToLower(text);
    var t := ReplaceTable(l);
    forall x | x in t
      ensures LowerChar(x) == x && !InTable(x)
    {
      var i :| 0 <= i < |t| && t[i] == x;
      LowerCharIdempotent(text[i]);
    }
  }

  /** `normalizeVietnamese(text)` */
  function NormalizeVietnamese(text: string): (r: string)
    ensures text == [] ==> r == []
    ensures r == [] || (!IsJsWhitespace(r[0]) && !IsJsWhitespace(r[|r| - 1]))
  {
    if text == [] then ""
    else Trim(StripMarks(Nfd(ReplaceTable(ToLower(text)))))
  }

  /** One character of the decomposed text is a key character or a combining mark. */
  lemma DecomposedCharIsKeyOrMark(x: char)
    requires !HasDecomposition(x) && LowerChar(x) == x
    requires !InTable(x) || 'a' <= x <= 'z' || IsCombiningMark(x)
    ensures IsKeyChar(x) || IsCombiningMark(x)
  {
  }

  /** After decomposition, the lower-cased, table-substituted text holds only key
      characters and combining marks. */
  lemma DecomposedChars(text: string)
    ensures forall x :: x in Nfd(ReplaceTable(ToLower(text))) ==> IsKeyChar(x) || IsCombiningMark(x)
  {
    var substituted := ReplaceTable(ToLower(text));
    LoweredSubstitutedChars(text);
    NfdAlphabet(substituted);
    NfdKeepsLowerCase(substituted);
    forall x | x in Nfd(substituted)
      ensures IsKeyChar(x) || IsCombiningMark(x)
    {
      DecomposedCharIsKeyOrMark(x);
    }
  }

  /** Every character of a key is a key character: no table character, no combining
      mark, nothing left to lower-case or to decompose. */
  lemma NormalizeAlphabet(text: string)
    ensures forall x :: x in NormalizeVietnamese(text) ==> IsKeyChar(x)
  {
    if text != [] {
      var decomposed := Nfd(ReplaceTable(ToLower(text)));
      DecomposedChars(text);
      var stripped := StripMarks(decomposed);
      assert forall x :: x in stripped ==> IsKeyChar(x);
      TrimKeepsChars(stripped);
    }
  }

  /** The table step keeps the length; mark removal and trimming only delete. */
  lemma NormalizeOnlyDeletes(text: string)
    ensures |ReplaceTable(ToLower(text))| == |text|
    ensures |NormalizeVietnamese(text)| <= |StripMarks(Nfd(ReplaceTable(ToLower(text))))|
  {
  }

  /** Text without table characters is left alone by the table step. */
  lemma ReplaceTableFixes(s: string)
    requires forall x :: x in s ==> !InTable(x)
    ensures ReplaceTable(s) == s
  {
  }

  /** Text made of key characters is left alone by every step of the pipeline. */
  lemma PipelineFixesKeyText(s: string)
    requires forall x :: x in s ==> IsKeyChar(x)
    ensures ToLower(s) == s && ReplaceTable(s) == s && Nfd(s) == s && StripMarks(s) == s
  {
    ToLowerFixes(s);
    ReplaceTableFixes(s);
    NfdOfDecomposed(s);
    FilterKeepsAll(s, IsNotMark);
  }

  /** A search key is its own key. */
  lemma NormalizeIdempotent(text: string)
    ensures NormalizeVietnamese(NormalizeVietnamese(text)) == NormalizeVietnamese(text)
  {
    var r := NormalizeVietnamese(text);
    if r != [] {
      NormalizeAlphabet(text);
      PipelineFixesKeyText(r);
      TrimOfTrimmed(r);
    }
  }

  /** Lower-casing first does not change the key. */
  lemma NormalizeIgnoresCase(text: string)
    ensures NormalizeVietnamese(ToLower(text)) == NormalizeVietnamese(text)
  {
    ToLowerIdempotent(text);
  }

  /** The example of the doc comment. */
  lemma NormalizeHaiBaTrung()
    ensures NormalizeVietnamese("Hai Bà Trưng") == "hai ba trung"
  {
    KeyOfPlainWords("Hai Bà Trưng", "hai bà trưng", "hai ba trung");
  }

  /** Upper-case Vietnamese letters (here Đ) reach the table through lower-casing. */
  lemma NormalizeDaNang()
    ensures NormalizeVietnamese("Đà Nẵng") == "da nang"
  {
    KeyOfPlainWords("Đà Nẵng", "đà nẵng", "da nang");
  }

  /** É is lowered to é, which the table's e class replaces. */
  lemma NormalizeCafe()
    ensures NormalizeVietnamese("CAFÉ") == "cafe"
  {
    KeyOfPlainWords("CAFÉ", "café", "cafe");
  }

  /** Ñ is lowered to ñ, which is not in the table: the NFD step splits off its tilde
      and the mark removal deletes it. */
  lemma NormalizeNino()
    ensures NormalizeVietnamese("NIÑO") == "nino"
  {
    NinoKey("NIÑO", "nino");
  }

  /** The example's strings, fixed by the precondition. */
  lemma NinoKey(text: string, key: string)
    requires text == "NIÑO" && key == "nino"
    ensures NormalizeVietnamese(text) == key
  {
    var lowered := "ni\U{00F1}o";
    TabledNino(text, lowered);
    MarksOfNinoGone(lowered, key);
    PlainWordsTrimmed(key);
    KeyThroughStages(text, lowered, key);
  }

  /** Chains the stages of the pipeline: lower-casing and the table give `tabled`,
      NFD and mark removal turn it into words that trimming keeps. */
  lemma KeyThroughStages(text: string, tabled: string, key: string)
    requires text != []
    requires ReplaceTable(ToLower(text)) == tabled
    requires StripMarks(Nfd(tabled)) == key
    requires Trim(key) == key
    ensures NormalizeVietnamese(text) == key
  {
  }

  /** Lower-casing gives "niño", which the table keeps. */
  lemma TabledNino(text: string, lowered: string)
    requires text == "NIÑO" && lowered == "ni\U{00F1}o"
    ensures ReplaceTable(ToLower(text)) == lowered
  {
    LowerNino(text, lowered);
    TableKeepsNino(lowered);
  }

  /** NFD splits ñ into n and a tilde; mark removal deletes the tilde. */
  lemma MarksOfNinoGone(lowered: string, key: string)
    requires lowered == "ni\U{00F1}o" && key == "nino"
    ensures StripMarks(Nfd(lowered)) == key
  {
    var decomposed := "nin\U{0303}o";
    NfdOfNino(lowered, decomposed);
    StripMarksOfNino(decomposed, key);
  }

  /** ñ is the one character of "niño" that NFD expands. */
  lemma NfdOfNino(lowered: string, decomposed: string)
    requires lowered == "ni\U{00F1}o" && decomposed == "nin\U{0303}o"
    ensures Nfd(lowered) == decomposed
  {
    assert Decompose('\U{00F1}') == ['n', CombiningTilde];
    NfdAroundOneChar("ni", '\U{00F1}', "o");
    assert "ni" + ['\U{00F1}'] + "o" == lowered;
    assert "ni" + ['n', CombiningTilde] + "o" == decomposed;
  }

  /** The tilde is the one mark of the decomposed text. */
  lemma StripMarksOfNino(decomposed: string, key: string)
    requires decomposed == "nin\U{0303}o" && key == "nino"
    ensures StripMarks(decomposed) == key
  {
    StripOneMark("nin", CombiningTilde, "o");
    assert "nin" + [CombiningTilde] + "o" == decomposed;
  }

  /** Only Ñ needs the Latin-1 lower-casing rule. */
  lemma LowerNino(text: string, lowered: string)
    requires text == "NIÑO" && lowered == "ni\U{00F1}o"
    ensures ToLower(text) == lowered
  {
    assert LowerChar('\U{00D1}') == '\U{00F1}';
  }

  /** No character of "niño" is in the table. */
  lemma TableKeepsNino(lowered: string)
    requires lowered == "ni\U{00F1}o"
    ensures ReplaceTable(lowered) == lowered
  {
    assert !InTable('\U{00F1}');
    forall x | x in lowered
      ensures !InTable(x)
    {
      if x != '\U{00F1}' {
        assert x in "nio";
        assert BaseLetter(x) == x;
      }
    }
    ReplaceTableFixes(lowered);
  }

  /** NFD of text with one decomposable character expands only that character. */
  lemma {:induction false} NfdAroundOneChar(a: string, c: char, b: string)
    requires forall x :: x in a ==> !HasDecomposition(x)
    requires forall x :: x in b ==> !HasDecomposition(x)
    ensures Nfd(a + [c] + b) == a + Decompose(c) + b
  {
    assert Nfd(a) == a by { NfdOfDecomposed(a); }
    assert Nfd(b) == b by { NfdOfDecomposed(b); }
    assert Nfd([c]) == Decompose(c) + Nfd([]);
    NfdConcat(a, [c]);
    NfdConcat(a + [c], b);
  }

  /** Mark removal deletes one combining mark between two mark-free strings. */
  lemma {:induction false} StripOneMark(a: string, m: char, b: string)
    requires forall x :: x in a ==> !IsCombiningMark(x)
    requires forall x :: x in b ==> !IsCombiningMark(x)
    requires IsCombiningMark(m)
    ensures StripMarks(a + [m] + b) == a + b
  {
    FilterAroundOne(a, m, b, IsNotMark);
  }

  /** When lower-casing and the table turn `text` into lower-case ASCII words without
      a space at either end, those words are the key. */
  lemma KeyOfPlainWords(text: string, lowered: string, key: string)
    requires text != []
    requires ToLower(text) == lowered
    requires |key| == |lowered| && forall i :: 0 <= i < |key| ==> BaseLetter(lowered[i]) == key[i]
    requires forall x :: x in key ==> 'a' <= x <= 'z' || x == ' '
    requires key == [] || (key[0] != ' ' && key[|key| - 1] != ' ')
    ensures NormalizeVietnamese(text) == key
  {
    assert ReplaceTable(lowered) == key;
    NfdOfDecomposed(key);
    FilterKeepsAll(key, IsNotMark);
    PlainWordsTrimmed(key);
  }

  lemma PlainWordsTrimmed(s: string)
    requires forall x :: x in s ==> 'a' <= x <= 'z' || x == ' '
    requires s == [] || (s[0] != ' ' && s[|s| - 1] != ' ')
    ensures Trim(s) == s
  {
    if s != [] {
      assert s[0] in s && s[|s| - 1] in s;
    }
    TrimOfTrimmed(s);
  }

  // ---------------------------------------------------------------- matching

  /** `flexibleMatch(target, query)` */
  function FlexibleMatch(target: string, query: string): (r: bool)
    ensures target == [] || query == [] ==> !r
    ensures target != [] && query != [] ==>
              (r <==> IsSubstring(NormalizeVietnamese(query), NormalizeVietnamese(target)) ||
                      IsSubstring(ToLower(query), ToLower(target)))
  {
    if target == [] || query == [] then false
    else
      var normalizedTarget := NormalizeVietnamese(target);
      var normalizedQuery := NormalizeVietnamese(query);
      Includes(normalizedTarget, normalizedQuery) ||
      Includes(ToLower(target), ToLower(query))
  }

  /** A non-empty query that occurs literally in the target always matches (the
      lower-case branch). */
  lemma LiteralOccurrenceMatches(target: string, query: string, i: nat)
    requires query != [] && OccursAt(query, target, i)
    ensures FlexibleMatch(target, query)
  {
    ToLowerSlice(target, i, i + |query|);
    assert OccursAt(ToLower(query), ToLower(target), i);
  }

  /** A query whose key occurs in the target's key always matches (the key branch). */
  lemma KeyOccurrenceMatches(target: string, query: string, i: nat)
    requires target != [] && query != []
    requires OccursAt(NormalizeVietnamese(query), NormalizeVietnamese(target), i)
    ensures FlexibleMatch(target, query)
  {
  }

  /** Every non-empty string matches itself. */
  lemma FlexibleMatchReflexive(s: string)
    requires s != []
    ensures FlexibleMatch(s, s)
  {
    assert s[0..|s|] == s;
    LiteralOccurrenceMatches(s, s, 0);
  }

  /** The table lists characters of two code-point ranges only. */
  lemma InTableRange(c: char)
    requires InTable(c)
    ensures '\U{00E0}' <= c <= '\U{01B0}' || '\U{1EA0}' <= c <= '\U{1EF9}'
  {
  }

  /** Whitespace passes every step of the pipeline unchanged. */
  lemma WhitespaceIsKeyChar(c: char)
    requires IsJsWhitespace(c)
    ensures IsKeyChar(c)
  {
    if InTable(c) {
      InTableRange(c);
    }
  }

  /** A string of whitespace only trims to the empty string. */
  lemma BlankTrimsToEmpty(s: string)
    requires forall x :: x in s ==> IsJsWhitespace(x)
    ensures Trim(s) == []
  {
    TrimKeepsChars(s);
  }

  /** A query of whitespace only gets past the empty-query guard, normalises to the
      empty key, and so matches every non-empty target. */
  lemma BlankQueryMatchesAll(target: string, query: string)
    requires target != [] && query != []
    requires forall x :: x in query ==> IsJsWhitespace(x)
    ensures NormalizeVietnamese(query) == []
    ensures FlexibleMatch(target, query)
  {
    forall x | x in query
      ensures IsKeyChar(x)
    {
      WhitespaceIsKeyChar(x);
    }
    PipelineFixesKeyText(query);
    BlankTrimsToEmpty(query);
    assert OccursAt([], NormalizeVietnamese(target), 0);
  }

  /** The case of either argument does not matter. */
  lemma FlexibleMatchIgnoresCase(target: string, query: string)
    ensures FlexibleMatch(ToLower(target), ToLower(query)) == FlexibleMatch(target, query)
  {
    NormalizeIgnoresCase(target);
    NormalizeIgnoresCase(query);
    ToLowerIdempotent(target);
    ToLowerIdempotent(query);
  }

  /** Matching is by substring, not by word: "cat" is found in "Category List". */
  lemma FlexibleMatchExamples()
    ensures !FlexibleMatch("", "cafe")
    ensures !FlexibleMatch("Cafe ABC", "")
    ensures FlexibleMatch("Category List", "cat")
  {
    assert ToLower("Category List")[0..3] == "cat";
    assert OccursAt(ToLower("cat"), ToLower("Category List"), 0);
  }

  /** A lower-case ASCII word is its own key. */
  lemma NormalizeTrung()
    ensures NormalizeVietnamese("trung") == "trung"
  {
    KeyOfPlainWords("trung", "trung", "trung");
  }

  /** A query without diacritics finds a word written with them: "trung" in "Hai Bà Trưng". */
  lemma FlexibleMatchAcrossDiacritics(target: string, query: string)
    requires target == "Hai Bà Trưng" && query == "trung"
    ensures FlexibleMatch(target, query)
  {
    NormalizeHaiBaTrung();
    NormalizeTrung();
    TrungOccursInKey();
    KeyOccurrenceMatches(target, query, 7);
  }

  /** "trung" is the last word of the key "hai ba trung". */
  lemma TrungOccursInKey()
    ensures OccursAt("trung", "hai ba trung", 7)
  {
    assert "hai ba trung"[7..12] == "trung";
  }

  /** A query with the target's own diacritics matches through the lower-case branch. */
  lemma FlexibleMatchKeepsDiacritics()
    ensures FlexibleMatch("résumé bar", "résumé")
  {
    assert "résumé bar"[0..6] == "résumé";
    LiteralOccurrenceMatches("résumé bar", "résumé", 0);
  }
}
