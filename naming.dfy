/**
 * The storage key both handlers derive for an upload:
 * `${sanitizedNama}_${nrp}_${originalname}`, where `sanitizedNama` is
 * `nama.replace(/[^a-zA-Z0-9]/g, '_')`.
 */
module Naming {

  /** The character class `[a-zA-Z0-9]`. */
  predicate IsAlnum(c: char)
  {
    ('a' <= c <= 'z') || ('A' <= c <= 'Z') || ('0' <= c <= '9')
  }

  /** Every character outside `[a-zA-Z0-9]` becomes `_`; the rest stay. */
  function Sanitize(nama: string): (r: string)
    ensures |r| == |nama|
    ensures forall i :: 0 <= i < |nama| ==> r[i] == (if IsAlnum(nama[i]) then nama[i] else '_')
  {
    if nama == [] then []
    else
      var last := nama[|nama| - 1];
      Sanitize(nama[..|nama| - 1]) + [if IsAlnum(last) then last else '_']
  }

  /** The object key, which is also the `s3_filename` column. */
  function StorageKey(nama: string, nrp: string, originalname: string): string
  {
    Sanitize(nama) + "_" + nrp + "_" + originalname
  }

  /** A sanitized name holds only letters, digits and underscores. */
  lemma SanitizedIsSafe(nama: string)
    ensures forall i :: 0 <= i < |Sanitize(nama)| ==> IsAlnum(Sanitize(nama)[i]) || Sanitize(nama)[i] == '_'
  {
  }

  /** Sanitizing twice changes nothing more than sanitizing once. */
  lemma SanitizeIdempotent(nama: string)
    ensures Sanitize(Sanitize(nama)) == Sanitize(nama)
  {
  }

  /** A name made only of letters and digits is kept as it is. */
  lemma SanitizeKeepsAlnum(nama: string)
    requires forall i :: 0 <= i < |nama| ==> IsAlnum(nama[i])
    ensures Sanitize(nama) == nama
  {
  }

  /**
   * The key splits back into its parts at the positions given by the
   * lengths of `nama` and `nrp`: the sanitized name, `_`, the nrp, `_`, and
   * the original file name unchanged.
   */
  lemma StorageKeyParts(nama: string, nrp: string, originalname: string)
    ensures var key := StorageKey(nama, nrp, originalname);
      && |key| == |nama| + |nrp| + |originalname| + 2
      && key[..|nama|] == Sanitize(nama)
      && key[|nama|] == '_'
      && key[|nama| + 1 .. |nama| + 1 + |nrp|] == nrp
      && key[|nama| + 1 + |nrp|] == '_'
      && key[|nama| + |nrp| + 2 ..] == originalname
  {
    var key := StorageKey(nama, nrp, originalname);
    assert key == Sanitize(nama) + ("_" + nrp + "_" + originalname);
  }

  /** The key is not injective: two different submissions can share one key. */
  lemma StorageKeyCollides()
    ensures StorageKey("a_1", "b", "x") == StorageKey("a", "1", "b_x")
    ensures StorageKey("a b", "1", "x") == StorageKey("a_b", "1", "x")
  {
    SanitizeExamples();
  }

  lemma SanitizeExamples()
    ensures Sanitize("a_1") == "a_1" && Sanitize("a") == "a"
    ensures Sanitize("a b") == "a_b" && Sanitize("a_b") == "a_b"
  {
    SanitizeAOneExample();
    SanitizeABExample();
    SanitizeSpaceExample();
  }

  lemma SanitizeAOneExample()
    ensures Sanitize("a_1") == "a_1"
  {
  }

  lemma SanitizeABExample()
    ensures Sanitize("a_b") == "a_b"
  {
  }

  lemma SanitizeSpaceExample()
    ensures Sanitize("a b") == "a_b"
  {
  }

  /** The key of Budi Santoso's (nrp 5001) upload of tugas1.pdf. */
  lemma StorageKeyExample()
    ensures StorageKey("Budi Santoso", "5001", "tugas1.pdf") == "Budi_Santoso_5001_tugas1.pdf"
  {
    assert Sanitize("Budi Santoso") == "Budi_Santoso";
  }
}
