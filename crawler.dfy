/**
 * The text-processing and record-assembly logic of the encyclopedia
 * scraper in index.py: label translation, whitespace normalisation,
 * citation extraction and the assembly of one document from the rows
 * of a detail page's profile table.
 */
module Crawler {
  import opened Wrappers
  import opened PyStr

  // ---------------------------------------------------------------------
  // normalize_string
  // ---------------------------------------------------------------------

  /**
   * A string in normal form: the only whitespace is a single space, never
   * first, never last and never followed by more whitespace. In particular
   * it holds no newline.
   */
  predicate Normalized(s: string) {
    && (forall i :: 0 <= i < |s| && IsWs(s[i]) ==> s[i] == ' ')
    && (s != [] ==> !IsWs(s[0]) && !IsWs(s[|s| - 1]))
    && (forall i, j :: 0 <= i < |s| && 0 <= j < |s| && j == i + 1 ==> !IsWs(s[i]) || !IsWs(s[j]))
  }

  /** index.py `normalize_string`: strip, delete every newline, then re-join the words with one space. */
  function NormalizeString(text: string): string
  {
    Join(" ", SplitWs(Replace(Strip(text), "\n", "")))
  }

  /** NormalizeString always yields normal form: no newline, no edge whitespace, single spaces. */
  lemma NormalizeIsNormalized(text: string)
    ensures Normalized(NormalizeString(text))
  {
    SplitWsWords(Replace(Strip(text), "\n", ""));
    JoinWordsNormalized(SplitWs(Replace(Strip(text), "\n", "")));
  }

  /** Words joined by single spaces are in normal form. */
  lemma {:induction false} JoinWordsNormalized(ws: seq<string>)
    requires forall k :: 0 <= k < |ws| ==> ws[k] != [] && NoWs(ws[k])
    ensures Normalized(Join(" ", ws))
  {
    if |ws| > 1 {
      var a := ws[0];
      var j := Join(" ", ws[1..]);
      JoinWordsNormalized(ws[1..]);
      assert Join(" ", ws) == a + " " + j;
      SpaceJoinNormalized(a, j);
    }
  }

  /** A word, one space and a normal-form non-empty string make a normal-form string. */
  lemma SpaceJoinNormalized(a: string, j: string)
    requires a != [] && NoWs(a)
    requires j != [] && Normalized(j)
    ensures Normalized(a + " " + j)
  {
    var s := a + " " + j;
    var n := |a|;
    assert forall i :: 0 <= i < n ==> s[i] == a[i];
    assert forall i :: n < i < |s| ==> s[i] == j[i - n - 1];
    assert s[n] == ' ';
    forall i, k | 0 <= i < k < |s| && k == i + 1
      ensures !IsWs(s[i]) || !IsWs(s[k])
    {
      if i > n {
        assert s[i] == j[i - n - 1] && s[k] == j[k - n - 1];
      }
    }
  }

  /** A normal-form string is its own `" ".join(s.split())`. */
  lemma {:induction false} JoinSplitNormalized(s: string)
    requires Normalized(s)
    ensures s != [] ==> SplitWs(s) != []
    ensures Join(" ", SplitWs(s)) == s
    decreases |s|
  {
    if s != [] {
      var w := Word(s);
      var n := |w|;
      WordSpec(s);
      if n == |s| {
        assert w == s;
        SplitWsWord(s);
      } else {
        assert s[n] == ' ';
        var u := s[n + 1..];
        NormalizedSuffix(s, n + 1);
        JoinSplitNormalized(u);
        assert s == s[..n] + [s[n]] + s[n + 1..];
        SplitWsGap(w, [' '], u);
        var tail := SplitWs(u);
        assert SplitWs(s) == [w] + tail;
        JoinCons(" ", w, tail);
      }
    }
  }

  /** Cutting a normal-form string just after one of its spaces leaves a normal-form string. */
  lemma NormalizedSuffix(s: string, k: nat)
    requires Normalized(s)
    requires 0 < k < |s| && s[k - 1] == ' '
    ensures Normalized(s[k..])
  {
    var u := s[k..];
    assert forall i :: 0 <= i < |u| ==> u[i] == s[k + i];
    assert !IsWs(s[k]) by {
      assert 0 <= k - 1 && k < |s|;
    }
    forall i, j | 0 <= i < j < |u| && j == i + 1
      ensures !IsWs(u[i]) || !IsWs(u[j])
    {
      assert u[i] == s[k + i] && u[j] == s[k + j];
    }
  }

  /** A string already in normal form is left unchanged by NormalizeString. */
  lemma NormalizedIsFixed(s: string)
    requires Normalized(s)
    ensures NormalizeString(s) == s
  {
    StripTrimmed(s);
    AbsentChar(s, '\n');
    ReplaceAbsent(s, "\n", "");
    JoinSplitNormalized(s);
  }

  /** The strings in normal form are exactly the fixed points of NormalizeString. */
  lemma NormalizeFixedPoint(s: string)
    ensures NormalizeString(s) == s <==> Normalized(s)
  {
    NormalizeIsNormalized(s);
    if Normalized(s) {
      NormalizedIsFixed(s);
    }
  }

  /** NormalizeString is idempotent. */
  lemma NormalizeIdempotent(s: string)
    ensures NormalizeString(NormalizeString(s)) == NormalizeString(s)
  {
    NormalizeIsNormalized(s);
    NormalizeFixedPoint(NormalizeString(s));
  }

  /** NormalizeString deletes and reshapes whitespace and nothing else. */
  lemma NormalizeKeepsText(s: string)
    ensures RemoveWs(NormalizeString(s)) == RemoveWs(s)
  {
    var a := Strip(s);
    var b := Replace(a, "\n", "");
    StripKeepsText(s);
    ReplaceWsKeepsText(a, '\n');
    JoinSplitWsKeepsText(b);
  }

  /** NormalizeString gives the empty string exactly for empty or whitespace-only text. */
  lemma NormalizeEmpty(s: string)
    ensures NormalizeString(s) == [] <==> AllWs(s)
  {
    NormalizeKeepsText(s);
    RemoveWsEmpty(s);
    RemoveWsEmpty(NormalizeString(s));
    var r := NormalizeString(s);
    NormalizeIsNormalized(s);
    if r != [] {
      assert !IsWs(r[0]);
    }
  }

  /** A newline between two words glues them: no space is put in its place. */
  lemma NewlineGlues(u: string, v: string)
    requires u != [] && NoWs(u)
    requires v != [] && NoWs(v)
    ensures NormalizeString(u + "\n" + v) == u + v
  {
    var x := u + "\n" + v;
    assert x[0] == u[0] && x[|x| - 1] == v[|v| - 1];
    StripTrimmed(x);
    ReplaceSingleChar(u, '\n', v, "");
    assert Replace(x, "\n", "") == u + v;
    SplitWsWord(u + v);
  }

  /** A newline with spaces around it still leaves exactly one space between the words. */
  lemma SpacedNewlineSeparates(u: string, v: string)
    requires u != [] && NoWs(u)
    requires v != [] && NoWs(v)
    ensures NormalizeString(u + " \n " + v) == u + " " + v
  {
    var x := u + " \n " + v;
    var n := |u|;
    assert x[0] == u[0] && x[|x| - 1] == v[|v| - 1];
    StripTrimmed(x);
    var left, right := u + " ", " " + v;
    assert forall k :: 0 <= k < |left| ==> left[k] != '\n';
    assert forall k :: 0 <= k < |right| ==> right[k] != '\n';
    ReplaceSingleChar(left, '\n', right, "");
    assert x == left + "\n" + right;
    assert Replace(x, "\n", "") == u + "  " + v;
    SplitWsGap(u, "  ", v);
    SplitWsWord(v);
    JoinCons(" ", u, [v]);
  }

  // ---------------------------------------------------------------------
  // translate_property_name
  // ---------------------------------------------------------------------

  /** The fixed table from the site's Korean field labels to English keys. */
  const FieldNames: map<string, string> := map[
    "상품명" := "name", "주종" := "type",
    "도수" := "ABV", "용량" := "volume", "가격" := "price",
    "원재료" := "ingredients", "제조사" := "manufacturer", "대표자명" := "owner",
    "주소" := "address", "연락처" := "phone", "온라인스토어" := "store",
    "홈페이지" := "homepage"]

  /** index.py `translate_property_name`: the table's key, or the label itself when it has none. */
  function TranslatePropertyName(propertyName: string): string
  {
    if propertyName in FieldNames then FieldNames[propertyName] else propertyName
  }

  /** Each of the twelve table labels translates to its English key. */
  lemma TranslateTable()
    ensures TranslatePropertyName("상품명") == "name"
    ensures TranslatePropertyName("주종") == "type"
    ensures TranslatePropertyName("도수") == "ABV"
    ensures TranslatePropertyName("용량") == "volume"
    ensures TranslatePropertyName("가격") == "price"
    ensures TranslatePropertyName("원재료") == "ingredients"
    ensures TranslatePropertyName("제조사") == "manufacturer"
    ensures TranslatePropertyName("대표자명") == "owner"
    ensures TranslatePropertyName("주소") == "address"
    ensures TranslatePropertyName("연락처") == "phone"
    ensures TranslatePropertyName("온라인스토어") == "store"
    ensures TranslatePropertyName("홈페이지") == "homepage"
  {
  }

  /** A label outside the table is passed through unchanged; it is never rejected. */
  lemma TranslateUnknown(propertyName: string)
    requires propertyName !in FieldNames
    ensures TranslatePropertyName(propertyName) == propertyName
  {
  }

  /** Two different table labels never land on the same key. */
  lemma TranslateTableInjective(a: string, b: string)
    requires a in FieldNames && b in FieldNames && a != b
    ensures TranslatePropertyName(a) != TranslatePropertyName(b)
  {
  }

  // ---------------------------------------------------------------------
  // get_term_source
  // ---------------------------------------------------------------------

  /** Python's `s.split(m)[0]`: the text before the first `m`, or all of `s`. */
  function Before(s: string, m: string): (r: string)
    requires m != []
    ensures |r| <= |s| && r == s[..|r|]
    ensures !Contains(r, m)
    ensures r == s || OccursAt(s, m, |r|)
    ensures !Contains(s, m) ==> r == s
    ensures forall j :: 0 <= j < |r| ==> !OccursAt(s, m, j)
  {
    var parts := SplitOn(s, m);
    FindSpec(s, m);
    SplitOnSpec(s, m);
    match Find(s, m)
    case None => parts[0]
    case Some(i) =>
      assert parts == [s[..i]] + SplitOn(s[i + |m|..], m);
      assert Contains(s, m);
      parts[0]
  }

  /** Python's `s.split(m)[1]`: the text between the first and second `m`; absent when `m` is. */
  function Between(s: string, m: string): (r: Option<string>)
    requires m != []
    ensures r.None? <==> !Contains(s, m)
    ensures r.Some? ==> Find(s, m).Some? && r.value == Before(s[Find(s, m).value + |m|..], m)
  {
    var parts := SplitOn(s, m);
    FindSpec(s, m);
    SplitOnSpec(s, m);
    if |parts| < 2 then None
    else
      assert parts == [s[..Find(s, m).value]] + SplitOn(s[Find(s, m).value + |m|..], m);
      Some(parts[1])
  }

  /** index.py `get_term_source`: the fixed chain of slices around five markers, then cleanup. */
  function GetTermSource(text: string): Option<string>
  {
    var afterField :- Between(text, "termSource");
    var beforeAudio := Before(afterField, "hasNotNewAudioInfra");
    var afterStrong :- Between(beforeAudio, "</strong>");
    var afterQuote :- Between(afterStrong, "\">");
    var beforeEnd := Before(afterQuote, "</p>',");
    Some(NormalizeString(Replace(beforeEnd, "</a>", "")))
  }

  /**
   * The extraction fails exactly when `termSource` is missing from the script,
   * `</strong>` from the slice after it, or `">` from the slice after that; the
   * two prefix cuts never fail.
   */
  lemma TermSourceFails(text: string)
    ensures GetTermSource(text).None? <==>
      || !Contains(text, "termSource")
      || (var beforeAudio := Before(Between(text, "termSource").value, "hasNotNewAudioInfra");
          || !Contains(beforeAudio, "</strong>")
          || !Contains(Between(beforeAudio, "</strong>").value, "\">"))
  {
  }

  /** A citation that was found is in normal form, so normalising it again changes nothing. */
  lemma TermSourceIsFixedPoint(text: string)
    requires GetTermSource(text).Some?
    ensures Normalized(GetTermSource(text).value)
    ensures NormalizeString(GetTermSource(text).value) == GetTermSource(text).value
  {
    var afterField := Between(text, "termSource").value;
    var beforeAudio := Before(afterField, "hasNotNewAudioInfra");
    var afterStrong := Between(beforeAudio, "</strong>").value;
    var afterQuote := Between(afterStrong, "\">").value;
    var beforeEnd := Before(afterQuote, "</p>',");
    var cleaned := Replace(beforeEnd, "</a>", "");
    assert GetTermSource(text).value == NormalizeString(cleaned);
    NormalizeIsNormalized(cleaned);
    NormalizeFixedPoint(NormalizeString(cleaned));
  }

  // ---------------------------------------------------------------------
  // get_doc
  // ---------------------------------------------------------------------

  /** A document field: a plain string, or the list the ingredients row is split into. */
  datatype Value = Str(text: string) | Lst(items: seq<string>)

  /** The `doc` dictionary that get_doc returns. */
  type Doc = map<string, Value>

  /** One profile-table row: the text of its `th` and of its `td` cell. */
  datatype Row = Row(th: string, td: string)

  /** The one label whose content is split into a list. */
  const IngredientsLabel: string := "원재료"

  /**
   * The image URL: the percent-decoded text between the first and second
   * `imageUrl=` of the thumbnail anchor's href, or "" when the anchor or its
   * href is missing or the href has no `imageUrl=`. `unquote` stands for
   * `urllib.parse.unquote`.
   */
  function ImageUrl(href: Option<string>, unquote: string -> string): (r: string)
    ensures href.None? ==> r == []
    ensures href.Some? && !Contains(href.value, "imageUrl=") ==> r == []
    ensures href.Some? && Contains(href.value, "imageUrl=") ==>
      Find(href.value, "imageUrl=").Some? &&
      r == unquote(Before(href.value[Find(href.value, "imageUrl=").value + 9..], "imageUrl="))
  {
    match href
    case None => []
    case Some(h) =>
      match Between(h, "imageUrl=")
      case None => []
      case Some(encoded) => unquote(encoded)
  }

  /** The key a row is stored under: its normalised label, translated. */
  function RowKey(row: Row): string
  {
    TranslatePropertyName(NormalizeString(row.th))
  }

  /**
   * The value a row is stored as: its normalised content, split on ", " into
   * a list exactly when the normalised label is the ingredients label.
   */
  function RowValue(row: Row): (v: Value)
    ensures v.Lst? <==> NormalizeString(row.th) == IngredientsLabel
    ensures v.Str? ==> v.text == NormalizeString(row.td)
    ensures v.Lst? ==> v.items != [] && Join(", ", v.items) == NormalizeString(row.td)
    ensures v.Lst? ==> forall k :: 0 <= k < |v.items| ==> !Contains(v.items[k], ", ")
  {
    var content := NormalizeString(row.td);
    SplitOnSpec(content, ", ");
    if NormalizeString(row.th) == IngredientsLabel then Lst(SplitOn(content, ", ")) else Str(content)
  }

  /**
   * The ingredients list is the only list of whole items with no `", "`
   * inside that joins back to the content: since `", "` cannot overlap
   * itself, RowValue's contract fixes the list as `content.split(", ")`.
   */
  lemma IngredientsAreTheSplit(row: Row, items: seq<string>)
    requires NormalizeString(row.th) == IngredientsLabel
    requires items != [] && Join(", ", items) == NormalizeString(row.td)
    requires forall k :: 0 <= k < |items| ==> !Contains(items[k], ", ")
    ensures RowValue(row) == Lst(items)
  {
    assert SelfOverlapFree(", ") by {
      assert ", "[1..] != ", "[..1];
    }
    SplitOnUnique(NormalizeString(row.td), ", ", items);
  }

  /** `doc[key] = value` for each entry in turn, starting from an empty dictionary. */
  function Store(entries: seq<(string, Value)>): Doc
  {
    if entries == [] then map[]
    else
      var last := entries[|entries| - 1];
      Store(entries[..|entries| - 1])[last.0 := last.1]
  }

  /** Every entry's key is stored, and no other key. */
  lemma {:induction false} StoreKeys(entries: seq<(string, Value)>, k: string)
    ensures k in Store(entries) <==> exists i :: 0 <= i < |entries| && entries[i].0 == k
  {
    if entries != [] {
      var init := entries[..|entries| - 1];
      StoreKeys(init, k);
      assert forall i :: 0 <= i < |init| ==> init[i] == entries[i];
    }
  }

  /** A key holds the value of the last entry with that key. */
  lemma {:induction false} StoreLastWins(entries: seq<(string, Value)>, i: nat)
    requires i < |entries|
    requires forall j :: i < j < |entries| ==> entries[j].0 != entries[i].0
    ensures entries[i].0 in Store(entries)
    ensures Store(entries)[entries[i].0] == entries[i].1
  {
    if i < |entries| - 1 {
      var init := entries[..|entries| - 1];
      assert init[i] == entries[i];
      StoreLastWinsStep(entries, init, i);
      StoreLastWins(init, i);
    }
  }

  lemma StoreLastWinsStep(entries: seq<(string, Value)>, init: seq<(string, Value)>, i: nat)
    requires i < |entries| - 1 && init == entries[..|entries| - 1]
    requires forall j :: i < j < |entries| ==> entries[j].0 != entries[i].0
    ensures forall j :: i < j < |init| ==> init[j].0 != init[i].0
  {
  }

  /** The (key, value) entry a row contributes. */
  function RowEntries(rows: seq<Row>): (entries: seq<(string, Value)>)
    ensures |entries| == |rows|
    ensures forall i :: 0 <= i < |rows| ==> entries[i] == (RowKey(rows[i]), RowValue(rows[i]))
  {
    seq(|rows|, i requires 0 <= i < |rows| => (RowKey(rows[i]), RowValue(rows[i])))
  }

  lemma StoreStep(entries: seq<(string, Value)>, i: nat)
    requires i < |entries|
    ensures Store(entries[..i + 1]) == Store(entries[..i])[entries[i].0 := entries[i].1]
  {
    assert entries[..i + 1][..i] == entries[..i];
  }

  /** The dictionary after storing `rows` one after the other into an empty one. */
  function RowsDoc(rows: seq<Row>): Doc
  {
    Store(RowEntries(rows))
  }

  /** Every row becomes a key, and nothing else does: no row is dropped or rejected. */
  lemma RowsDocKeys(rows: seq<Row>, k: string)
    ensures k in RowsDoc(rows) <==> exists i :: 0 <= i < |rows| && RowKey(rows[i]) == k
  {
    StoreKeys(RowEntries(rows), k);
  }

  /** A key holds the value of the last row that maps to it: later rows overwrite earlier ones. */
  lemma RowsDocLastWins(rows: seq<Row>, i: nat)
    requires i < |rows|
    requires forall j :: i < j < |rows| ==> RowKey(rows[j]) != RowKey(rows[i])
    ensures RowKey(rows[i]) in RowsDoc(rows)
    ensures RowsDoc(rows)[RowKey(rows[i])] == RowValue(rows[i])
  {
    StoreLastWins(RowEntries(rows), i);
  }

  /** The finished document: the rows, then `source`, then `image`, each overriding what came before. */
  function Assemble(rows: seq<Row>, source: string, image: string): (doc: Doc)
  {
    RowsDoc(rows)["source" := Str(source)]["image" := Str(image)]
  }

  /** `source` and `image` win over any row with those keys; every other key comes from the rows. */
  lemma AssembleFields(rows: seq<Row>, source: string, image: string, k: string)
    ensures Assemble(rows, source, image)["source"] == Str(source)
    ensures Assemble(rows, source, image)["image"] == Str(image)
    ensures k in Assemble(rows, source, image) <==>
      k == "source" || k == "image" || exists i :: 0 <= i < |rows| && RowKey(rows[i]) == k
    ensures k != "source" && k != "image" && k in RowsDoc(rows) ==>
      Assemble(rows, source, image)[k] == RowsDoc(rows)[k]
  {
    RowsDocKeys(rows, k);
  }

  /**
   * index.py `get_doc`, with the page's selector lookups given as inputs:
   * the script text, the thumbnail anchor's href if any, and the (th, td)
   * texts of the profile rows in page order. Fails, as the source raises,
   * exactly when the citation cannot be extracted.
   */
  method GetDoc(script: string, href: Option<string>, rows: seq<Row>, unquote: string -> string)
    returns (r: Option<Doc>)
    ensures r.None? <==> GetTermSource(script).None?
    ensures r.Some? ==> r.value == Assemble(rows, GetTermSource(script).value, ImageUrl(href, unquote))
  {
    var termSource := GetTermSource(script);
    if termSource.None? {
      return None;
    }
    var imageUrl := ImageUrl(href, unquote);

    var doc: Doc := map[];
    var i := 0;
    while i < |rows|
      invariant 0 <= i <= |rows|
      invariant doc == Store(RowEntries(rows)[..i])
    {
      StoreStep(RowEntries(rows), i);
      doc := doc[RowKey(rows[i]) := RowValue(rows[i])];
      i := i + 1;
    }
    assert RowEntries(rows)[..|rows|] == RowEntries(rows);

    doc := doc["source" := Str(termSource.value)];
    doc := doc["image" := Str(imageUrl)];
    r := Some(doc);
  }
}
