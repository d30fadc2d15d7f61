/** The text the server authenticates with its HMAC key: `time-pubkey-identities`. */
module ChallengeTexts {
  import opened Words
  import opened Texts

  function ChallengeText(time: u64, pubkey: string, identities: string): string {
    Decimal(time) + "-" + pubkey + "-" + identities
  }

  /** The issue time is always recoverable: a decimal number holds no dash. */
  lemma TextDeterminesTime(t: u64, p: string, ids: string, t': u64, p': string, ids': string)
    ensures ChallengeText(t, p, ids) == ChallengeText(t', p', ids')
       <==> t == t' && p + "-" + ids == p' + "-" + ids'
  {
    DecimalIsDigits(t);
    DecimalIsDigits(t');
    assert '-' !in Decimal(t) && '-' !in Decimal(t');
    var rest, rest' := p + "-" + ids, p' + "-" + ids';
    assert ChallengeText(t, p, ids) == Decimal(t) + ['-'] + rest;
    assert ChallengeText(t', p', ids') == Decimal(t') + ['-'] + rest';
    if ChallengeText(t, p, ids) == ChallengeText(t', p', ids') {
      SplitAtFirst(Decimal(t), rest, Decimal(t'), rest', '-');
    }
  }

  /** With dash-free identities on both sides the text determines all three parts. */
  lemma TextDeterminesParts(t: u64, p: string, ids: string, t': u64, p': string, ids': string)
    requires '-' !in ids && '-' !in ids'
    requires ChallengeText(t, p, ids) == ChallengeText(t', p', ids')
    ensures t == t' && p == p' && ids == ids'
  {
    TextDeterminesTime(t, p, ids, t', p', ids');
    SplitAtLast(p, ids, p', ids', '-');
  }

  /** A text determines its key and identities exactly when neither holds a dash.  Every OpenSSH key text holds one,
      so for those it takes identities known to be dash-free on both sides. */
  lemma PartsDeterminedIffDashFree(t: u64, p: string, ids: string)
    ensures '-' !in p && '-' !in ids
       <==> (forall p', ids' :: ChallengeText(t, p', ids') == ChallengeText(t, p, ids) ==> p' == p && ids' == ids)
  {
    if '-' in ids {
      var before, after := CutAtLast(ids, '-');
      SameTextOtherParts(t, p, before, after);
    } else if '-' in p {
      var before, after := CutAtLast(p, '-');
      SameTextOtherParts(t, before, after, ids);
    } else {
      forall p', ids' | ChallengeText(t, p', ids') == ChallengeText(t, p, ids) ensures p' == p && ids' == ids {
        TextDeterminesTime(t, p', ids', t, p, ids);
        assert '-' !in p' by {
          DashesOfText(p', ids', p, ids);
        }
        SplitAtFirst(p', ids', p, ids, '-');
      }
    }
  }

  /** A dash in the middle can end the key text or belong to the identities. */
  lemma SameTextOtherParts(t: u64, p: string, middle: string, ids: string)
    ensures ChallengeText(t, p + "-" + middle, ids) == ChallengeText(t, p, middle + "-" + ids)
    ensures p + "-" + middle != p
  {
    assert p + "-" + middle + "-" + ids == p + "-" + (middle + "-" + ids);
    TextDeterminesTime(t, p + "-" + middle, ids, t, p, middle + "-" + ids);
    assert |p + "-" + middle| > |p|;
  }

  /** If the only dash of a text is its separator, it is the separator however the text is split. */
  lemma DashesOfText(p': string, ids': string, p: string, ids: string)
    requires p' + "-" + ids' == p + "-" + ids && '-' !in p && '-' !in ids
    ensures '-' !in p'
  {
    var s := p + "-" + ids;
    assert s[|p'|] == '-';
    assert forall i :: 0 <= i < |s| && s[i] == '-' ==> i == |p|;
    assert forall i :: 0 <= i < |p'| ==> s[i] == p'[i];
  }

  /** Among the choices with dash-free identities, a text names only one exactly when its own identities hold no
      dash. */
  lemma DashFreeChoiceIff(t: u64, p: string, ids: string)
    ensures '-' !in ids
       <==> (forall p', ids' :: '-' !in ids' && ChallengeText(t, p', ids') == ChallengeText(t, p, ids)
                                ==> p' == p && ids' == ids)
  {
    if '-' !in ids {
      forall p', ids' | '-' !in ids' && ChallengeText(t, p', ids') == ChallengeText(t, p, ids)
        ensures p' == p && ids' == ids
      {
        TextDeterminesParts(t, p', ids', t, p, ids);
      }
    } else {
      var before, after := CutAtLast(ids, '-');
      SameTextOtherParts(t, p, before, after);
    }
  }
}
