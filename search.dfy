/** The body of the debounced search handler: which sections stay displayed
    for a typed term. */
module Search {
  import opened Text

  /** Whether one section, with text content `text`, stays displayed
      (`style.display = ''`) rather than being hidden (`'none'`). */
  function Shows(term: string, text: string): (r: bool)
    ensures Utf16Length(term) < 2 ==> r
    ensures Utf16Length(term) >= 2 ==> (r <==> IsSubstring(Lower(term), Lower(text)))
  {
    var t := Lower(term);
    LowerKeepsUtf16Length(term);
    Utf16Length(t) < 2 || Includes(Lower(text), t)
  }

  /** The display flag of every section after one filter pass. */
  function Filtered(term: string, texts: seq<string>): (r: seq<bool>)
    ensures |r| == |texts| && forall j :: 0 <= j < |texts| ==> r[j] == Shows(term, texts[j])
  {
    seq(|texts|, j requires 0 <= j < |texts| => Shows(term, texts[j]))
  }

  /** A term shorter than two UTF-16 code units (the empty term included)
      resets the filter: every section is displayed. */
  lemma ShortTermShowsAll(term: string, texts: seq<string>)
    requires Utf16Length(term) < 2
    ensures forall j :: 0 <= j < |texts| ==> Filtered(term, texts)[j]
  {
  }

  /** The filter ignores letter case, in the term and in the text. */
  lemma CaseInsensitive(term: string, text: string)
    ensures Shows(Lower(term), text) == Shows(term, text)
    ensures Shows(term, Lower(text)) == Shows(term, text)
  {
    LowerIdempotent(term);
    LowerIdempotent(text);
  }

  /** Typing more characters never brings back a hidden section. */
  lemma NarrowingNeverReveals(term: string, more: string, text: string)
    requires Shows(term + more, text)
    ensures Shows(term, text)
  {
    if Utf16Length(term) >= 2 {
      Utf16LengthGrows(term, more);
      LowerConcat(term, more);
      PrefixOccurs(Lower(term), Lower(more), Lower(text));
    }
  }

  /** One character above U+FFFF is two code units long, so it filters:
      every section whose text lacks it is hidden. */
  lemma SupplementaryCharFilters(text: string)
    requires '\U{1F600}' !in text
    ensures Utf16Length("\U{1F600}") == 2
    ensures !Shows("\U{1F600}", text)
  {
    assert Utf16Length("\U{1F600}") == Utf16Length([]) + 2;
    assert Lower("\U{1F600}") == "\U{1F600}";
    var t := Lower(text);
    forall i: nat ensures !OccursAt("\U{1F600}", t, i) {
      if i + 1 <= |t| {
        assert t[i..i + 1][0] == t[i] == LowerChar(text[i]);
      }
    }
  }

  /** "data" keeps the section "Database layer" and hides "UI layout". */
  lemma FilterExample()
    ensures Filtered("data", ["Database layer", "UI layout"]) == [true, false]
  {
    KeepsDatabase();
    HidesLayout();
    var texts := ["Database layer", "UI layout"];
    assert Filtered("data", texts)[0] == Shows("data", texts[0]);
    assert Filtered("data", texts)[1] == Shows("data", texts[1]);
  }

  lemma KeepsDatabase()
    ensures Shows("data", "Database layer")
  {
    assert Lower("data") == "data";
    var t := Lower("Database layer");
    assert t[0] == 'd' && t[1] == 'a' && t[2] == 't' && t[3] == 'a';
    assert t[0..4] == "data";
    assert OccursAt("data", t, 0);
  }

  lemma HidesLayout()
    ensures !Shows("data", "UI layout")
  {
    assert Lower("data") == "data";
    var t := Lower("UI layout");
    assert t == "ui layout";
    forall i: nat ensures !OccursAt("data", t, i) {
      if i + 4 <= |t| {
        assert t[i..i + 4][0] == t[i];
      }
    }
  }

  /** A substring test, not a word-prefix test: "db" does not match
      "Database layer", whose letters d and b are not adjacent. */
  lemma NoAbbreviations()
    ensures !Shows("db", "Database layer")
  {
    assert Lower("db") == "db";
    var t := Lower("Database layer");
    assert t == "database layer";
    forall i: nat ensures !OccursAt("db", t, i) {
      if i + 2 <= |t| {
        assert t[i..i + 2][0] == t[i] && t[i..i + 2][1] == t[i + 1];
      }
    }
  }
}
