/**
 * SteamID64 normalisation and profile links (utils/steam.py). The HTTP profile lookups
 * of the same file are network calls and are not part of this model.
 */
module Steam {
  import opened Wrappers
  import opened Text

  /** A SteamID64 is 17 decimal digits once cleaned. */
  const SteamId64Length := 17

  const ProfileUrlPrefix := "https://steamcommunity.com/profiles/"

  /** `re.sub(r"\D", "", s)`: every non-digit removed, the digits kept in order. */
  function KeepDigits(s: string): (r: string)
    ensures AllDigits(r) && |r| <= |s|
  {
    if s == [] then []
    else (if IsDigit(s[0]) then [s[0]] else []) + KeepDigits(s[1..])
  }

  /** `clean_steamid64`: the digits of the input when there are exactly 17 of them, else None. */
  function CleanSteamId64(steamid: string): (r: Option<string>)
    ensures r.Some? <==> |KeepDigits(steamid)| == SteamId64Length
    ensures r.Some? ==> |r.value| == SteamId64Length && AllDigits(r.value)
    ensures r.Some? ==> r.value == KeepDigits(steamid)
  {
    var cleaned := KeepDigits(steamid);
    if |cleaned| == SteamId64Length && AllDigits(cleaned) then Some(cleaned) else None
  }

  /** `get_steam_profile_link`: the fixed profile URL prefix followed by the ID. */
  function ProfileLink(steamid: string): (r: string)
    ensures |r| == |ProfileUrlPrefix| + |steamid|
    ensures ProfileUrlPrefix <= r && r[|ProfileUrlPrefix|..] == steamid
  {
    ProfileUrlPrefix + steamid
  }

  /**
   * Two IDs give the same link only if they are the same ID. This follows directly from
   * `ProfileLink` putting the same prefix in front of the ID.
   */
  lemma ProfileLinkInjective(a: string, b: string)
    requires ProfileLink(a) == ProfileLink(b)
    ensures a == b
  {
    assert a == ProfileLink(a)[|ProfileUrlPrefix|..];
  }

  /** Cleaning distributes over concatenation: the digits of each part, in order. */
  lemma {:induction false} KeepDigitsConcat(a: string, b: string)
    ensures KeepDigits(a + b) == KeepDigits(a) + KeepDigits(b)
    decreases |a|
  {
    if a != [] {
      assert (a + b)[1..] == a[1..] + b;
      KeepDigitsConcat(a[1..], b);
    } else {
      assert a + b == b;
    }
  }

  /** A text of digits only is left as it is. */
  lemma {:induction false} KeepDigitsOfDigits(s: string)
    requires AllDigits(s)
    ensures KeepDigits(s) == s
    decreases |s|
  {
    if s != [] {
      KeepDigitsOfDigits(s[1..]);
    }
  }

  /** Each digit character occurs in the cleaned text as often as in the input; nothing else occurs. */
  lemma {:induction false} KeepDigitsCounts(s: string, c: char)
    ensures multiset(KeepDigits(s))[c] == if IsDigit(c) then multiset(s)[c] else 0
    decreases |s|
  {
    if s != [] {
      KeepDigitsCounts(s[1..], c);
      assert s == [s[0]] + s[1..];
      assert multiset(s) == multiset([s[0]]) + multiset(s[1..]);
    }
  }

  /** Cleaning an already cleaned ID returns it unchanged. */
  lemma CleanIdempotent(steamid: string)
    requires CleanSteamId64(steamid).Some?
    ensures CleanSteamId64(CleanSteamId64(steamid).value) == CleanSteamId64(steamid)
  {
    KeepDigitsOfDigits(KeepDigits(steamid));
  }

  /** Exactly the 17-digit texts are their own cleaned form. */
  lemma CleanFixedPoints(s: string)
    ensures CleanSteamId64(s) == Some(s) <==> |s| == SteamId64Length && AllDigits(s)
  {
    if |s| == SteamId64Length && AllDigits(s) {
      KeepDigitsOfDigits(s);
    }
  }
}
