/**
 * Tag keys as plain strings: the ordering std::string uses to sort them and the
 * family prefix tests that decide which metadata container a key belongs to.
 */
module Keys {
  import opened Optional

  /**
   * Strict lexicographic order, as std::string::compare(...) < 0.  The keys come
   * from UTF-8 strings, whose byte-wise order is the order of their code points,
   * so comparing characters here matches comparing the bytes.
   */
  predicate Less(a: string, b: string)
    decreases |a|
  {
    if a == [] then b != []
    else if b == [] then false
    else a[0] < b[0] || (a[0] == b[0] && Less(a[1..], b[1..]))
  }

  predicate LessEq(a: string, b: string) {
    a == b || Less(a, b)
  }

  lemma {:induction false} LessAsymmetric(a: string, b: string)
    ensures !(Less(a, b) && Less(b, a))
    decreases |a|
  {
    if a != [] && b != [] && a[0] == b[0] {
      LessAsymmetric(a[1..], b[1..]);
    }
  }

  lemma LessIrreflexive(a: string)
    ensures !Less(a, a)
  {
    LessAsymmetric(a, a);
  }

  lemma {:induction false} LessTransitive(a: string, b: string, c: string)
    requires Less(a, b) && Less(b, c)
    ensures Less(a, c)
    decreases |a|
  {
    if a != [] && a[0] == b[0] && b[0] == c[0] {
      LessTransitive(a[1..], b[1..], c[1..]);
    }
  }

  lemma {:induction false} LessTotal(a: string, b: string)
    ensures a == b || Less(a, b) || Less(b, a)
    decreases |a|
  {
    if a != [] && b != [] && a[0] == b[0] {
      LessTotal(a[1..], b[1..]);
      if a[1..] == b[1..] {
        assert a == [a[0]] + a[1..] && b == [b[0]] + b[1..];
      }
    }
  }

  lemma LessEqTransitive(a: string, b: string, c: string)
    requires LessEq(a, b) && LessEq(b, c)
    ensures LessEq(a, c)
    ensures Less(a, b) || Less(b, c) ==> Less(a, c)
  {
    if Less(a, b) && Less(b, c) {
      LessTransitive(a, b, c);
    }
  }

  /** The metadata families a key may belong to. */
  datatype Family = Exif | Iptc | Xmp

  /** The prefix that marks a key of each family. */
  function Prefix(f: Family): string {
    match f
    case Exif => "Exif."
    case Iptc => "Iptc."
    case Xmp => "Xmp."
  }

  predicate StartsWith(key: string, p: string) {
    |p| <= |key| && key[..|p|] == p
  }

  /**
   * `key.compare(0, n, p) == 0`: the first n characters of key, or all of
   * key when it is shorter, are exactly p.
   */
  predicate CompareHead(key: string, n: nat, p: string) {
    key[..if |key| < n then |key| else n] == p
  }

  /**
   * The dispatch on a key's prefix: Exif first, then Iptc, then Xmp, and no
   * family for any other key (including one shorter than the prefix).
   */
  function Classify(key: string): (r: Option<Family>)
    ensures forall f :: r == Some(f) <==> StartsWith(key, Prefix(f))
    ensures r == None <==> forall f :: !StartsWith(key, Prefix(f))
  {
    if CompareHead(key, 5, "Exif.") then
      assert key[0] == key[..5][0] == 'E';
      Some(Exif)
    else if CompareHead(key, 5, "Iptc.") then
      assert key[0] == key[..5][0] == 'I';
      Some(Iptc)
    else if CompareHead(key, 4, "Xmp.") then Some(Xmp)
    else None
  }
}
