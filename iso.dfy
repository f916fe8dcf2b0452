/** The serial lookup of `get_serial`: the search for `cdrom0:\s?\\(.*?);`
    (case-insensitive, leftmost match, `.` not matching a newline) over the
    already decoded text of an image's SYSTEM.CNF. */
module Iso {
  import opened Text

  const Key := "cdrom0:"

  /** Where the capture group starts when the pattern's head `cdrom0:\s?\\`
      matches at `i`. The optional whitespace is tried first; dropping it
      then cannot help, because the next character would have to be both
      whitespace and a backslash. */
  function CaptureStart(text: string, i: nat): Option<nat> {
    if i + 7 <= |text| && Lower(text[i..i + 7]) == Key then
      var j := i + 7;
      if j + 1 < |text| && IsSpace(text[j]) && text[j + 1] == '\\' then Some(j + 2)
      else if j < |text| && text[j] == '\\' then Some(j + 1)
      else None
    else None
  }

  /** The lazy `(.*?);` from `s`: the first `;` before any newline. */
  function CaptureEnd(text: string, s: nat): (r: Option<nat>)
    decreases |text| - s
    ensures r.Some? ==> s <= r.value < |text| && text[r.value] == ';'
    ensures r.Some? ==> forall m :: s <= m < r.value ==> text[m] != ';' && text[m] != '\n'
    ensures r.None? ==> forall k :: s <= k < |text| && text[k] == ';' ==>
              exists m :: s <= m < k && text[m] == '\n'
  {
    if s >= |text| then None
    else if text[s] == ';' then Some(s)
    else if text[s] == '\n' then None
    else CaptureEnd(text, s + 1)
  }

  /** The group captured by a match starting at `i`, if the pattern matches there. */
  function MatchAt(text: string, i: nat): Option<string> {
    match CaptureStart(text, i)
    case None => None
    case Some(s) =>
      match CaptureEnd(text, s)
      case None => None
      case Some(k) => Some(text[s..k])
  }

  /** `re.search` from position `i` on. */
  function SearchFrom(text: string, i: nat): Option<string>
    decreases |text| - i
  {
    if i > |text| then None
    else if MatchAt(text, i).Some? then MatchAt(text, i)
    else SearchFrom(text, i + 1)
  }

  /** The search from `i` finds the match at the first position from `i` on
      where the pattern matches, and nothing when it matches nowhere. */
  lemma {:induction false} SearchFromLeftmost(text: string, i: nat)
    ensures SearchFrom(text, i).Some? ==> exists k ::
              && i <= k <= |text| && MatchAt(text, k) == SearchFrom(text, i)
              && forall j :: i <= j < k ==> MatchAt(text, j).None?
    ensures SearchFrom(text, i).None? ==> forall k :: i <= k <= |text| ==> MatchAt(text, k).None?
    decreases |text| - i
  {
    if i <= |text| {
      var m := MatchAt(text, i);
      if m.Some? {
        assert SearchFrom(text, i) == m;
        assert forall j: nat :: i <= j < i ==> MatchAt(text, j).None?;
      } else {
        assert SearchFrom(text, i) == SearchFrom(text, i + 1);
        SearchFromLeftmost(text, i + 1);
        if SearchFrom(text, i + 1).Some? {
          var k :| i + 1 <= k <= |text| && MatchAt(text, k) == SearchFrom(text, i + 1)
                   && forall j :: i + 1 <= j < k ==> MatchAt(text, j).None?;
          forall j | i <= j < k
            ensures MatchAt(text, j).None?
          {
            if j > i {
              assert i + 1 <= j < k;
            }
          }
        } else {
          forall k | i <= k <= |text|
            ensures MatchAt(text, k).None?
          {
            if k > i {
              assert i + 1 <= k <= |text|;
            }
          }
        }
      }
    }
  }

  /** `match.group(1)` of the leftmost match, or `None` when nothing matches. */
  function GetSerial(text: string): Option<string> {
    SearchFrom(text, 0)
  }

  /** The serial is the group of the leftmost match; there is none exactly
      when the pattern matches nowhere. */
  lemma GetSerialLeftmost(text: string)
    ensures var r := GetSerial(text);
            && (r.Some? ==> exists i ::
                  && 0 <= i <= |text| && MatchAt(text, i) == r
                  && forall j :: 0 <= j < i ==> MatchAt(text, j).None?)
            && (r.None? <==> forall k :: 0 <= k <= |text| ==> MatchAt(text, k).None?)
  {
    SearchFromLeftmost(text, 0);
  }

  /** A match's group is the text after `cdrom0:`, at most one whitespace
      character and a backslash, up to the next `;`; it holds neither a `;`
      nor a newline. */
  lemma MatchShape(text: string, i: nat)
    requires MatchAt(text, i).Some?
    ensures var s := CaptureStart(text, i).value;
            && i + 7 < s <= i + 9 && Lower(text[i..i + 7]) == Key && text[s - 1] == '\\'
            && (s == i + 9 ==> IsSpace(text[i + 7]))
            && CaptureEnd(text, s).Some?
            && MatchAt(text, i).value == text[s..CaptureEnd(text, s).value]
            && text[CaptureEnd(text, s).value] == ';'
    ensures ';' !in MatchAt(text, i).value && '\n' !in MatchAt(text, i).value
  {
    var s := CaptureStart(text, i).value;
    var k := CaptureEnd(text, s).value;
    var r := text[s..k];
    assert forall m :: 0 <= m < |r| ==> r[m] == text[s + m];
  }

  /** Hence the serial found holds neither a `;` nor a newline. */
  lemma SerialHasNoTerminator(text: string)
    requires GetSerial(text).Some?
    ensures ';' !in GetSerial(text).value && '\n' !in GetSerial(text).value
  {
    GetSerialLeftmost(text);
    var i :| 0 <= i <= |text| && MatchAt(text, i) == GetSerial(text);
    MatchShape(text, i);
  }

  /** The search passes over positions where nothing matches. */
  lemma {:induction false} SearchSkips(text: string, i: nat, k: nat)
    requires i <= k <= |text|
    requires forall j :: i <= j < k ==> MatchAt(text, j).None?
    ensures SearchFrom(text, i) == SearchFrom(text, k)
    decreases k - i
  {
    if i < k {
      SearchSkips(text, i + 1, k);
    }
  }

  /** The capture ends at the first `;` when no newline comes before it. */
  lemma {:induction false} CaptureEndAt(text: string, s: nat, k: nat)
    requires s <= k < |text| && text[k] == ';'
    requires forall m :: s <= m < k ==> text[m] != ';' && text[m] != '\n'
    ensures CaptureEnd(text, s) == Some(k)
    decreases k - s
  {
    if s < k {
      CaptureEndAt(text, s + 1, k);
    }
  }

  /** The example line `BOOT2 = cdrom0:\SLUS_200.02;1`, written in its parts. */
  const Boot2Line := "BOOT2 = " + Key + "\\" + "SLUS_200.02" + ";" + "1"

  /** Nothing matches before the `cdrom0:` of the example line. */
  lemma Boot2NoEarlierMatch()
    ensures forall i :: 0 <= i < 8 ==> MatchAt(Boot2Line, i).None?
  {
    var t := Boot2Line;
    forall i | 0 <= i < 8 ensures MatchAt(t, i).None? {
      assert Lower(t[i..i + 7])[6] == LowerChar(t[i + 6]);
    }
  }

  /** A line `pre` + `cdrom0:\` + `serial` + `;` + `post` matches at the end
      of `pre`, capturing `serial`, when `serial` holds no `;` and no newline. */
  lemma MatchAtKey(pre: string, serial: string, post: string)
    requires ';' !in serial && '\n' !in serial
    ensures var t := pre + Key + "\\" + serial + ";" + post;
            MatchAt(t, |pre|) == Some(serial)
  {
    var t := pre + Key + "\\" + serial + ";" + post;
    var i := |pre|;
    assert t[i..i + 7] == Key;
    assert Lower(Key) == Key;
    assert t[i + 7] == '\\';
    assert CaptureStart(t, i) == Some(i + 8);
    var s := i + 8;
    var k := s + |serial|;
    assert t == pre + Key + "\\" + serial + (";" + post);
    assert t[s..k] == serial;
    assert forall m :: s <= m < k ==> t[m] == serial[m - s];
    CaptureEndAt(t, s, k);
  }

  /** The pattern matches at the `cdrom0:` of the example line. */
  lemma Boot2MatchAt8()
    ensures MatchAt(Boot2Line, 8) == Some("SLUS_200.02")
  {
    MatchAtKey("BOOT2 = ", "SLUS_200.02", "1");
  }

  /** The example line of the source's comment yields its serial. */
  lemma ExampleBoot2()
    ensures GetSerial(Boot2Line) == Some("SLUS_200.02")
  {
    Boot2NoEarlierMatch();
    SearchSkips(Boot2Line, 0, 8);
    Boot2MatchAt8();
  }

  /** `get_serial` as a whole: an image whose SYSTEM.CNF read fails, with the
      exception caught, gives `None`. */
  function SerialOfImage(systemCnf: Option<string>): Option<string> {
    if systemCnf.None? then None else GetSerial(systemCnf.value)
  }
}
