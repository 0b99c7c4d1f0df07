/** The device session policy: the maximum expected session length, in days, of the
    sensor named by a device identifier. */
module Session {
  import opened Glucose

  /** Session lengths, in days. */
  const G7SessionDays: real := 10.5
  const G6SessionDays: real := 10.0

  /** Upper-casing of one character (ASCII letters only). */
  function UpperChar(c: char): char
  {
    if 'a' <= c <= 'z' then (c as int - 32) as char else c
  }

  /** Lower-casing of one character (ASCII letters only). */
  function LowerChar(c: char): char
  {
    if 'A' <= c <= 'Z' then (c as int + 32) as char else c
  }

  /** ASCII upper-casing (`str.upper` on ASCII text). */
  function Upper(s: string): (u: string)
    ensures |u| == |s|
    ensures forall i :: 0 <= i < |s| ==> u[i] == UpperChar(s[i])
  {
    if s == [] then [] else [UpperChar(s[0])] + Upper(s[1..])
  }

  /** ASCII lower-casing, used only to state case-insensitivity. */
  function Lower(s: string): (l: string)
    ensures |l| == |s|
    ensures forall i :: 0 <= i < |s| ==> l[i] == LowerChar(s[i])
  {
    if s == [] then [] else [LowerChar(s[0])] + Lower(s[1..])
  }

  /** `pat` occurs in `s` starting at position `i`. */
  predicate OccursAt(pat: string, s: string, i: nat)
  {
    i + |pat| <= |s| && s[i .. i + |pat|] == pat
  }

  /** `pat` occurs in `s` at some position. */
  ghost predicate Occurs(pat: string, s: string)
  {
    exists i: nat :: OccursAt(pat, s, i)
  }

  /** `pat in s`, by scanning the start positions from the left. */
  function Contains(s: string, pat: string): (b: bool)
    ensures b <==> Occurs(pat, s)
  {
    if |s| < |pat| then
      assert forall i: nat :: !OccursAt(pat, s, i);
      false
    else if s[..|pat|] == pat then
      assert OccursAt(pat, s, 0);
      true
    else
      var rest := Contains(s[1..], pat);
      assert forall i: nat :: OccursAt(pat, s[1..], i) <==> OccursAt(pat, s, i + 1) by {
        forall i: nat ensures OccursAt(pat, s[1..], i) <==> OccursAt(pat, s, i + 1) {
          if i + 1 + |pat| <= |s| {
            assert s[1..][i .. i + |pat|] == s[i + 1 .. i + 1 + |pat|];
          }
        }
      }
      assert !OccursAt(pat, s, 0);
      assert Occurs(pat, s) ==> Occurs(pat, s[1..]) by {
        if Occurs(pat, s) {
          var i: nat :| OccursAt(pat, s, i);
          assert OccursAt(pat, s[1..], i - 1);
        }
      }
      rest
  }

  /** `max_session_days`: no identifier, or an unknown one, gives no answer; an
      identifier naming a G7 gives 10.5 days, even if it also names a G6; one naming
      only a G6 gives 10 days. Names are matched without regard to case. */
  function MaxSessionDays(deviceId: Option<string>): (days: Option<real>)
    ensures deviceId.None? ==> days.None?
    ensures deviceId.Some? && Occurs("G7", Upper(deviceId.value)) ==> days == Some(G7SessionDays)
    ensures deviceId.Some? && !Occurs("G7", Upper(deviceId.value)) && Occurs("G6", Upper(deviceId.value))
            ==> days == Some(G6SessionDays)
    ensures deviceId.Some? && !Occurs("G7", Upper(deviceId.value)) && !Occurs("G6", Upper(deviceId.value))
            ==> days.None?
  {
    if deviceId.None? then None
    else
      var s := Upper(deviceId.value);
      if Contains(s, "G7") then Some(G7SessionDays)
      else if Contains(s, "G6") then Some(G6SessionDays)
      else None
  }

  lemma UpperIsIdempotent(s: string)
    ensures Upper(Upper(s)) == Upper(s)
  {
    forall i | 0 <= i < |s| ensures UpperChar(UpperChar(s[i])) == UpperChar(s[i]) {
      var c := s[i];
      if 'a' <= c <= 'z' {
        assert 'A' <= UpperChar(c) <= 'Z';
      }
    }
  }

  lemma UpperOfLower(s: string)
    ensures Upper(Lower(s)) == Upper(s)
  {
    forall i | 0 <= i < |s| ensures UpperChar(LowerChar(s[i])) == UpperChar(s[i]) {
      var c := s[i];
      if 'A' <= c <= 'Z' {
        assert 'a' <= LowerChar(c) <= 'z';
        assert (LowerChar(c) as int - 32) as char == c;
      }
    }
  }

  /** Upper- or lower-casing an identifier first does not change the answer. */
  lemma MaxSessionDaysIgnoresCase(s: string)
    ensures MaxSessionDays(Some(Upper(s))) == MaxSessionDays(Some(s))
    ensures MaxSessionDays(Some(Lower(s))) == MaxSessionDays(Some(s))
  {
    UpperIsIdempotent(s);
    UpperOfLower(s);
  }

  /** "G7-ABC123" is a G7: 10.5 days. */
  lemma G7Example()
    ensures MaxSessionDays(Some("G7-ABC123")) == Some(10.5)
  {
    assert OccursAt("G7", Upper("G7-ABC123"), 0);
  }

  /** "G6-XYZ" is a G6: 10 days. */
  lemma G6Example()
    ensures MaxSessionDays(Some("G6-XYZ")) == Some(10.0)
  {
    assert Upper("G6-XYZ") == "G6-XYZ";
    assert OccursAt("G6", "G6-XYZ", 0);
    assert !Occurs("G7", "G6-XYZ") by {
      forall i: nat ensures !OccursAt("G7", "G6-XYZ", i) {
        if i + 2 <= 6 {
          assert "G6-XYZ"[i .. i + 2][1] == "G6-XYZ"[i + 1];
        }
      }
    }
  }

  /** An identifier naming both models is taken as a G7. */
  lemma BothModelsExample()
    ensures MaxSessionDays(Some("G6-G7")) == Some(10.5)
  {
    assert OccursAt("G7", Upper("G6-G7"), 3);
  }

  /** An identifier without the letter G, in either case, names no known model. */
  lemma WithoutGIsUnknown(s: string)
    requires forall i :: 0 <= i < |s| ==> s[i] != 'g' && s[i] != 'G'
    ensures MaxSessionDays(Some(s)) == None
  {
    var u := Upper(s);
    forall i: nat ensures !OccursAt("G7", u, i) && !OccursAt("G6", u, i) {
      if i + 2 <= |u| {
        assert u[i .. i + 2][0] == u[i] == UpperChar(s[i]);
      }
    }
  }

  /** "unknownmodel" names neither model: no answer. */
  lemma UnknownExample()
    ensures MaxSessionDays(Some("unknownmodel")) == None
  {
    WithoutGIsUnknown("unknownmodel");
  }
}
