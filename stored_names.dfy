/**
 * The stored-name scheme of the storage gateway. An upload is written to
 * disk as `<timestamp>-<random>-<sanitised original name>`
 * (backend/server.js:26-30), and listing and download recover a display
 * name from a stored name by dropping its first two `-`-separated pieces
 * (backend/server.js:75-78, 94-95).
 */
module StoredNames {
  import opened Numerals
  import opened JsText

  /** `Math.round(Math.random() * 1E9)` lies between 0 and this bound. */
  const MaxRandom: nat := 1_000_000_000

  /** The characters kept by sanitisation: the class `[a-zA-Z0-9.-]`. */
  predicate IsAllowed(c: char) {
    ('a' <= c <= 'z') || ('A' <= c <= 'Z') || ('0' <= c <= '9') || c == '.' || c == '-'
  }

  /** `original.replace(/[^a-zA-Z0-9.-]/g, '_')`: each character on its own. */
  function Sanitize(original: string): (r: string)
    ensures |r| == |original|
    ensures forall i :: 0 <= i < |r| ==> r[i] == (if IsAllowed(original[i]) then original[i] else '_')
  {
    if original == [] then []
    else [if IsAllowed(original[0]) then original[0] else '_'] + Sanitize(original[1..])
  }

  /**
   * The characters a sanitised name is made of, `[A-Za-z0-9._-]`: the
   * allowed ones and the replacement `_`, which is itself outside the class.
   */
  predicate IsSanitized(c: char) {
    IsAllowed(c) || c == '_'
  }

  /** Every character of a sanitised name is in `[A-Za-z0-9._-]`. */
  lemma SanitizedCharacters(original: string)
    ensures forall i :: 0 <= i < |Sanitize(original)| ==> IsSanitized(Sanitize(original)[i])
  {
  }

  /**
   * Sanitising leaves a name as it is exactly when it is made of
   * `[A-Za-z0-9._-]`; a `_` already present survives unchanged.
   */
  lemma SanitizeFixes(original: string)
    ensures Sanitize(original) == original <==> forall i :: 0 <= i < |original| ==> IsSanitized(original[i])
  {
    if forall i :: 0 <= i < |original| ==> IsSanitized(original[i]) {
      assert Sanitize(original) == original;
    } else {
      var i :| 0 <= i < |original| && !IsSanitized(original[i]);
      assert Sanitize(original)[i] != original[i];
    }
  }

  /** Sanitising a second time changes nothing. */
  lemma SanitizeIdempotent(original: string)
    ensures Sanitize(Sanitize(original)) == Sanitize(original)
  {
    var once := Sanitize(original);
    assert Sanitize(once) == once;
  }

  /**
   * `Date.now() + '-' + Math.round(Math.random() * 1E9)` (backend/server.js:27):
   * two `-`-separated pieces of digits that read back as the two numbers.
   */
  function UniqueSuffix(nameTime: nat, random: nat): (r: string)
    requires random <= MaxRandom
    ensures var parts := Split(r, '-');
      && |parts| == 2 && AllDigits(parts[0]) && AllDigits(parts[1])
      && Value(parts[0]) == nameTime && Value(parts[1]) == random
  {
    var a, b := NatToString(nameTime), NatToString(random);
    SplitAfterPiece(a, b, '-');
    SplitJoin([b], '-');
    ValueOfNatToString(nameTime);
    ValueOfNatToString(random);
    a + "-" + b
  }

  /**
   * The name multer writes the upload under (backend/server.js:26-30): its
   * first two `-`-separated pieces read back as the timestamp and the random
   * number, and the pieces after them join to the sanitised original name.
   */
  function StoredName(nameTime: nat, random: nat, original: string): (r: string)
    requires random <= MaxRandom
    ensures var parts := Split(r, '-');
      && |parts| >= 3 && AllDigits(parts[0]) && AllDigits(parts[1])
      && Value(parts[0]) == nameTime && Value(parts[1]) == random
      && Join(parts[2..], '-') == Sanitize(original)
  {
    var a, b, c := NatToString(nameTime), NatToString(random), Sanitize(original);
    var r := UniqueSuffix(nameTime, random) + "-" + c;
    assert r == a + ['-'] + (b + ['-'] + c);
    SplitAfterPiece(a, b + ['-'] + c, '-');
    SplitAfterPiece(b, c, '-');
    assert Split(r, '-')[2..] == Split(c, '-');
    JoinSplit(c, '-');
    ValueOfNatToString(nameTime);
    ValueOfNatToString(random);
    r
  }

  /**
   * `parts.slice(2).join('-') || name` with `parts = name.split('-')`
   * (backend/server.js:75-78 and 94-95): everything after the second `-`,
   * or the whole name when that is empty. The display name is thus a tail
   * of the stored name, and empty only for the empty name.
   */
  function RecoverOriginal(name: string): (r: string)
    ensures |r| <= |name| && r == name[|name| - |r|..]
    ensures r == [] <==> name == []
  {
    var parts := Split(name, '-');
    var tail := Join(SliceFrom(parts, 2), '-');
    if tail == [] then name
    else
      JoinSplit(name, '-');
      assert |parts| >= 3 && SliceFrom(parts, 2) == parts[2..] == parts[1..][1..];
      assert name == parts[0] + ['-'] + (parts[1] + ['-'] + tail);
      tail
  }

  /**
   * A stored name is the decimal timestamp, a `-`, the decimal random
   * number, a `-`, then the sanitised name; its first two pieces are the
   * two numbers.
   */
  lemma StoredNameShape(nameTime: nat, random: nat, original: string)
    requires random <= MaxRandom
    ensures var name := StoredName(nameTime, random, original);
      && name == NatToString(nameTime) + "-" + NatToString(random) + "-" + Sanitize(original)
      && Split(name, '-') == [NatToString(nameTime), NatToString(random)] + Split(Sanitize(original), '-')
      && AllDigits(NatToString(nameTime)) && AllDigits(NatToString(random))
  {
    var a, b, c := NatToString(nameTime), NatToString(random), Sanitize(original);
    assert a + "-" + b + "-" + c == a + ['-'] + (b + ['-'] + c);
    SplitAfterPiece(a, b + ['-'] + c, '-');
    SplitAfterPiece(b, c, '-');
  }

  /** A stored name is all ASCII: one byte per character on disk. */
  lemma StoredNameIsAscii(nameTime: nat, random: nat, original: string)
    requires random <= MaxRandom
    ensures var name := StoredName(nameTime, random, original);
      forall i :: 0 <= i < |name| ==> name[i] < 128 as char
  {
    var a, b, c := NatToString(nameTime), NatToString(random), Sanitize(original);
    var name := StoredName(nameTime, random, original);
    assert name == a + "-" + b + "-" + c;
    forall i | 0 <= i < |name| ensures name[i] < 128 as char {
      if i < |a| { assert name[i] == a[i]; }
      else if i == |a| || i == |a| + 1 + |b| { }
      else if i < |a| + 1 + |b| { assert name[i] == b[i - |a| - 1]; }
      else { assert name[i] == c[i - |a| - |b| - 2]; }
    }
  }

  /**
   * Reference reading of the recovery rule: when the name is a `-`-free
   * piece, a `-`, another `-`-free piece, a `-` and a rest, recovery gives
   * the rest, or the whole name if the rest is empty.
   */
  lemma {:induction false} RecoverAfterSecondDash(a: string, b: string, rest: string)
    requires '-' !in a && '-' !in b
    ensures RecoverOriginal(a + "-" + b + "-" + rest) == if rest == [] then a + "-" + b + "-" + rest else rest
  {
    var name := a + "-" + b + "-" + rest;
    assert name == a + ['-'] + (b + ['-'] + rest);
    SplitAfterPiece(a, b + ['-'] + rest, '-');
    SplitAfterPiece(b, rest, '-');
    var parts := Split(name, '-');
    assert SliceFrom(parts, 2) == Split(rest, '-');
    JoinSplit(rest, '-');
  }

  /** With fewer than two `-` (fewer than three pieces) recovery falls back to the name. */
  lemma FallbackWithFewDashes(name: string)
    requires Count(name, '-') < 2
    ensures RecoverOriginal(name) == name
  {
    SplitLength(name, '-');
  }

  /**
   * Round trip: recovery from a generated name gives the sanitised original
   * name, or the whole stored name when the original name is empty.
   */
  lemma RecoverStoredName(nameTime: nat, random: nat, original: string)
    requires random <= MaxRandom
    ensures RecoverOriginal(StoredName(nameTime, random, original))
         == if original == [] then StoredName(nameTime, random, original) else Sanitize(original)
  {
    RecoverAfterSecondDash(NatToString(nameTime), NatToString(random), Sanitize(original));
  }

  /**
   * The upload response reports the raw original name (backend/server.js:60)
   * and the listing the recovered one (backend/server.js:78); they agree
   * exactly when the original name is non-empty and made only of
   * `[A-Za-z0-9._-]`.
   */
  lemma ReportedNamesAgree(nameTime: nat, random: nat, original: string)
    requires random <= MaxRandom
    ensures RecoverOriginal(StoredName(nameTime, random, original)) == original
        <==> original != [] && forall i :: 0 <= i < |original| ==> IsSanitized(original[i])
  {
    RecoverStoredName(nameTime, random, original);
    SanitizeFixes(original);
    if original == [] {
      assert |StoredName(nameTime, random, original)| > 0;
    }
  }

  /** Sanitising `report final.pdf` replaces the space only. */
  lemma SanitizeWithSpace(s: string)
    requires s == "report final.pdf"
    ensures Sanitize(s) == "report_final.pdf"
  {
    var r := Sanitize(s);
    forall i | 0 <= i < |s| ensures r[i] == "report_final.pdf"[i] {
      if i == 6 { assert !IsAllowed(s[i]); } else { assert IsAllowed(s[i]); }
    }
  }

  /** The example of a name with a space: `report final.pdf` is listed as `report_final.pdf`. */
  lemma RecoverWithSpace(nameTime: nat, random: nat, original: string)
    requires random <= MaxRandom
    requires original == "report final.pdf"
    ensures RecoverOriginal(StoredName(nameTime, random, original)) == "report_final.pdf"
  {
    RecoverStoredName(nameTime, random, original);
    SanitizeWithSpace(original);
  }
}
