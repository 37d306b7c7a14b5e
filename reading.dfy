/** The daily page's ayah listing: each Arabic ayah is shown beside the
    translation ayah at the same position. */
module Reading {
  import opened Options
  import opened Html

  /** An ayah as the text endpoints return it. */
  datatype Ayah = Ayah(numberInSurah: int, text: string)

  /** One rendered ayah: its number and the escaped Arabic and translation text. */
  datatype AyahRow = AyahRow(number: int, arabicHtml: string, translationHtml: string)

  /** The `forEach` callback's row for position `i`: `translationAyahs[i]`
      is `undefined` past the end of the translation, and then `''` is shown. */
  function RowAt(arabic: seq<Ayah>, translation: seq<Ayah>, i: nat): AyahRow
    requires i < |arabic|
  {
    var transText := if i < |translation| then translation[i].text else "";
    AyahRow(arabic[i].numberInSurah, EscapeHtml(Some(arabic[i].text)), EscapeHtml(Some(transText)))
  }

  /** The `surah.ayahs.forEach((a, i) => …)` loop: one row per Arabic ayah;
      row `i` shows Arabic ayah `i` and translation ayah `i`, or an empty
      translation past the end of a shorter translation array. */
  method RenderAyahs(arabic: seq<Ayah>, translation: seq<Ayah>) returns (rows: seq<AyahRow>)
    ensures |rows| == |arabic|
    ensures forall i :: 0 <= i < |rows| ==> rows[i] == RowAt(arabic, translation, i)
    ensures forall i :: 0 <= i < |rows| ==>
              rows[i].number == arabic[i].numberInSurah
              && Unescape(rows[i].arabicHtml) == arabic[i].text
    ensures forall i :: 0 <= i < |rows| && i < |translation| ==>
              Unescape(rows[i].translationHtml) == translation[i].text
    ensures forall i :: |translation| <= i < |rows| ==> rows[i].translationHtml == ""
  {
    rows := [];
    var i := 0;
    while i < |arabic|
      invariant 0 <= i <= |arabic| && |rows| == i
      invariant forall j :: 0 <= j < i ==> rows[j] == RowAt(arabic, translation, j)
    {
      rows := rows + [RowAt(arabic, translation, i)];
      i := i + 1;
    }
    forall j | 0 <= j < |rows|
      ensures rows[j].number == arabic[j].numberInSurah
      ensures Unescape(rows[j].arabicHtml) == arabic[j].text
      ensures j < |translation| ==> Unescape(rows[j].translationHtml) == translation[j].text
      ensures |translation| <= j ==> rows[j].translationHtml == ""
    {
      RowAtDisplays(arabic, translation, j);
    }
  }

  /** What row `i` displays once the browser decodes its entities: the
      ayah's number and Arabic text, and the translation text at the same
      position, or nothing past the end of a shorter translation. */
  lemma RowAtDisplays(arabic: seq<Ayah>, translation: seq<Ayah>, i: nat)
    requires i < |arabic|
    ensures var row := RowAt(arabic, translation, i);
            row.number == arabic[i].numberInSurah
            && Unescape(row.arabicHtml) == arabic[i].text
            && (i < |translation| ==> Unescape(row.translationHtml) == translation[i].text)
            && (|translation| <= i ==> row.translationHtml == "")
  {
    EscapeRoundTrip(arabic[i].text);
    if i < |translation| {
      EscapeRoundTrip(translation[i].text);
    }
  }
}
