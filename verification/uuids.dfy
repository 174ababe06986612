/**
 The two UUID patterns of the view layer. The request-data normaliser
 accepts hex digits of either case (`[0-9a-fA-F]`), the composer endpoint
 only lower-case ones (`[0-9a-f]`); both use the 8-4-4-4-12 layout.
 */
module Uuids {
  import opened Text

  predicate IsLowerHexDigit(c: char)
  {
    '0' <= c <= '9' || 'a' <= c <= 'f'
  }

  predicate IsHexDigit(c: char)
  {
    IsLowerHexDigit(c) || 'A' <= c <= 'F'
  }

  /** The digit class in use: `[0-9a-f]` when `lowerOnly`, else `[0-9a-fA-F]`. */
  predicate IsDigitOf(c: char, lowerOnly: bool)
  {
    if lowerOnly then IsLowerHexDigit(c) else IsHexDigit(c)
  }

  predicate IsHyphenPosition(i: int)
  {
    i == 8 || i == 13 || i == 18 || i == 23
  }

  /** 36 characters, hyphens at 8, 13, 18 and 23, a hex digit everywhere else. */
  predicate IsUuid(s: string, lowerOnly: bool)
  {
    && |s| == 36
    && forall i :: 0 <= i < 36 ==>
         if IsHyphenPosition(i) then s[i] == '-' else IsDigitOf(s[i], lowerOnly)
  }

  /**
   The list pattern `UUID(,UUID)*`, anchored at both ends. A UUID always
   spans exactly 36 characters, so the pattern is read one UUID at a time.
   */
  predicate MatchesUuidList(s: string, lowerOnly: bool)
    decreases |s|
  {
    && |s| >= 36
    && IsUuid(s[..36], lowerOnly)
    && (|s| == 36 || (s[36] == ',' && MatchesUuidList(s[37..], lowerOnly)))
  }

  /** Every piece of `pieces` is a UUID of the given digit class. */
  predicate AllUuids(pieces: seq<string>, lowerOnly: bool)
  {
    forall i :: 0 <= i < |pieces| ==> IsUuid(pieces[i], lowerOnly)
  }

  lemma UuidHasNoComma(s: string, lowerOnly: bool)
    requires IsUuid(s, lowerOnly)
    ensures ',' !in s
  {
    forall i | 0 <= i < |s|
      ensures s[i] != ','
    {
      if IsHyphenPosition(i) {
      } else {
        assert IsDigitOf(s[i], lowerOnly);
      }
    }
  }

  /** A leading UUID followed by a comma is the first piece of the split. */
  lemma SplitAfterUuid(s: string, lowerOnly: bool)
    requires |s| > 36 && IsUuid(s[..36], lowerOnly) && s[36] == ','
    ensures Split(s, ',') == [s[..36]] + Split(s[37..], ',')
  {
    var t := s[36..];
    assert s == s[..36] + t;
    UuidHasNoComma(s[..36], lowerOnly);
    SplitFreePrefix(s[..36], t, ',');
    assert t[1..] == s[37..];
    assert Split(t, ',') == [""] + Split(s[37..], ',');
    assert s[..36] + "" == s[..36];
  }

  /**
   The anchored list pattern holds exactly when every `,`-piece of the
   string is a UUID: the regex and the split describe the same strings.
   */
  lemma {:induction false} MatchesIffAllPiecesUuids(s: string, lowerOnly: bool)
    ensures MatchesUuidList(s, lowerOnly) <==> AllUuids(Split(s, ','), lowerOnly)
    decreases |s|
  {
    var ps := Split(s, ',');
    if MatchesUuidList(s, lowerOnly) {
      if |s| == 36 {
        UuidHasNoComma(s, lowerOnly);
        SplitSingle(s, ',');
        assert s[..36] == s;
      } else {
        SplitAfterUuid(s, lowerOnly);
        MatchesIffAllPiecesUuids(s[37..], lowerOnly);
      }
    }
    if AllUuids(ps, lowerOnly) {
      JoinSplit(s, ',');
      var p0 := ps[0];
      assert IsUuid(p0, lowerOnly);
      if |ps| == 1 {
        assert s == p0;
        assert s[..36] == s;
      } else {
        var r := Join(ps[1..], ',');
        assert s == p0 + [','] + r;
        assert s[..36] == p0;
        assert s[36] == ',';
        assert s[37..] == r;
        SplitJoin(ps[1..], ',');
        assert AllUuids(Split(r, ','), lowerOnly) by {
          assert Split(r, ',') == ps[1..];
        }
        MatchesIffAllPiecesUuids(r, lowerOnly);
      }
    }
  }

  /** Every lower-case UUID list also matches the mixed-case pattern. */
  lemma {:induction false} LowerListMatchesMixed(s: string)
    requires MatchesUuidList(s, true)
    ensures MatchesUuidList(s, false)
    decreases |s|
  {
    assert IsUuid(s[..36], false) by {
      forall i | 0 <= i < 36 && !IsHyphenPosition(i)
        ensures IsHexDigit(s[..36][i])
      {
        assert IsDigitOf(s[..36][i], true);
      }
    }
    if |s| > 36 {
      LowerListMatchesMixed(s[37..]);
    }
  }

  /** The converse fails: an upper-case UUID matches only the mixed-case pattern. */
  lemma UpperCaseSeparatesThePatterns()
    ensures var s := "0A1B2C3D-0000-0000-0000-000000000000";
      MatchesUuidList(s, false) && !MatchesUuidList(s, true)
  {
    var s := "0A1B2C3D-0000-0000-0000-000000000000";
    assert s[..36] == s;
    assert !IsDigitOf(s[1], true);
  }
}
