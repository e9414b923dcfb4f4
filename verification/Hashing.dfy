/** SHA-256 as an arbitrary function into 64 lower-case hex characters. Nothing is
    assumed of it; a theorem that needs collision resistance says so for the finite
    set of strings that the computation at hand feeds to it. */
module Hashing {

  predicate IsHexLower(c: char) {
    '0' <= c <= '9' || 'a' <= c <= 'f'
  }

  predicate IsDigest(s: string) {
    |s| == 64 && forall i | 0 <= i < |s| :: IsHexLower(s[i])
  }

  type Digest = s: string | IsDigest(s) witness seq(64, _ => '0')

  /** hashlib.sha256(text.encode()).hexdigest() */
  type HashFn = string -> Digest

  ghost predicate CollisionFree(h: HashFn, inputs: set<string>) {
    forall x, y {:trigger h(x), h(y)} | x in inputs && y in inputs && h(x) == h(y) :: x == y
  }
}
