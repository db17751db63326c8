/**
  The examples of the unit tests (src/anagram.test.js), proved about the
  reference meaning `SameLetters` that `AreAnagrams` is shown to compute.
 */
module AnagramExamples {
  import opened CaseMapping
  import opened Anagram

  /** A string without spaces is left as it is by the filter. */
  lemma {:induction false} WithoutSpacesNoSpace(s: string)
    requires ' ' !in s
    ensures WithoutSpaces(s) == s
  {
    if s != [] {
      var p, x := s[..|s| - 1], s[|s| - 1];
      assert s == p + [x];
      WithoutSpacesSnoc(p, x);
      WithoutSpacesNoSpace(p);
    }
  }

  lemma ListenLetters()
    ensures multiset("listen") == multiset{'e', 'i', 'l', 'n', 's', 't'}
  {
  }

  lemma SilentLetters()
    ensures multiset("silent") == multiset{'e', 'i', 'l', 'n', 's', 't'}
  {
  }

  /** 'listen' and 'silent' are anagrams. */
  lemma ListenSilent()
    ensures SameLetters("listen", "silent")
  {
    ListenLetters();
    SilentLetters();
    PermutationIsAnagram("listen", "silent");
  }

  /** 'listens' and 'silent' are not: their lengths differ. */
  lemma ListensNotSilent()
    ensures !SameLetters("listens", "silent")
  {
    WithoutSpacesNoSpace("listens");
    WithoutSpacesNoSpace("silent");
    LengthMismatch("listens", "silent");
  }

  /** 'LISTEN' and 'Silent' are anagrams: case is ignored. */
  lemma UpperListenSilent()
    ensures SameLetters("LISTEN", "Silent")
  {
    ListenSilent();
    CaseInsensitive("listen", "LISTEN", "silent", "Silent");
  }

  lemma ConversationLetters()
    ensures multiset("conversation") == multiset{'a', 'c', 'e', 'i', 'n', 'n', 'o', 'o', 'r', 's', 't', 'v'}
  {
  }

  lemma VoicesRantOnLetters()
    ensures multiset("voicesranton") == multiset{'a', 'c', 'e', 'i', 'n', 'n', 'o', 'o', 'r', 's', 't', 'v'}
  {
  }

  /** Inserting the two spaces of 'voices rant on'. */
  lemma VoicesRantOnSpaces(b: string)
    ensures SameLetters("voices rant on", b) <==> SameLetters("voicesranton", b)
  {
    SpaceInsertionIgnored("voicesranton", 6, b);
    assert "voicesranton"[..6] + " " + "voicesranton"[6..] == "voices ranton";
    SpaceInsertionIgnored("voices ranton", 11, b);
    assert "voices ranton"[..11] + " " + "voices ranton"[11..] == "voices rant on";
  }

  /** The lower-case spelling of the example. */
  lemma ConversationVoicesRantOnLower()
    ensures SameLetters("conversation", "voices rant on")
  {
    ConversationLetters();
    VoicesRantOnLetters();
    PermutationIsAnagram("voicesranton", "conversation");
    VoicesRantOnSpaces("conversation");
  }

  /** 'Conversation' and 'Voices rant on' are anagrams: spaces are ignored. */
  lemma ConversationVoicesRantOn()
    ensures SameLetters("Conversation", "Voices rant on")
  {
    ConversationVoicesRantOnLower();
    CaseInsensitive("conversation", "Conversation", "voices rant on", "Voices rant on");
  }
}
