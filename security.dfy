/**
 * security.h: a password is stored as a character mix of the password and
 * a 16-character salt. `char` is a signed byte and `%` on int truncates
 * toward zero, both written out below. The salt's random draws
 * (srand(time(nullptr) + i); rand()) become the parameter `draw`.
 */
module Security {
  import opened Text

  /** The salt length security.h relies on. */
  const SaltLength: nat := 16

  /** A char read as a signed byte. */
  function SChar(c: char): int
  {
    var b := (c as int) % 256;
    if b >= 128 then b - 256 else b
  }

  /** C++ `a % m` for m > 0: the remainder takes the sign of a. */
  function CRem(a: int, m: int): (r: int)
    requires m > 0
    ensures -m < r < m && (a >= 0 ==> 0 <= r) && (a <= 0 ==> r <= 0)
  {
    if a >= 0 then a % m else -((-a) % m)
  }

  /** char(a): the low byte of a as a character. */
  function CharOf(a: int): char
  {
    (a % 256) as char
  }

  /** The mixing polynomial x*x + p*x + q of both sides. */
  function Mix(x: int, p: int, q: int): int
  {
    x * x + p * x + q
  }

  lemma MixNonNegative(x: int, p: int, q: int)
    requires x >= 0 && p >= 0 && q >= 0
    ensures Mix(x, p, q) >= 0
  {
    assert x * x >= 0 && p * x >= 0;
  }

  /** The code the loops compute for pass[i]: (x*x + i*x + j) % 127. */
  function PassCode(pass: string, i: nat, j: nat): int
    requires i < |pass|
  {
    CRem(Mix(SChar(pass[i]), i, j), 127)
  }

  /** The code the loops compute for salt[j]: (y*y + j*y + i) % 127. */
  function SaltCode(salt: string, j: nat, i: nat): int
    requires j < |salt|
  {
    CRem(Mix(SChar(salt[j]), j, i), 127)
  }

  /**
   * The output of hash from counters i, j on: while both sides remain, the
   * larger code is written and its side advances (the password side on a
   * tie); then the rest of the password; then the rest of the salt.
   */
  function Merge(pass: string, salt: string, i: nat, j: nat): (r: string)
    requires i <= |pass| && j <= SaltLength && |salt| == SaltLength
    ensures |r| == (|pass| - i) + (SaltLength - j)
    decreases (|pass| - i) + (SaltLength - j)
  {
    if i < |pass| && j < SaltLength then
      var a := PassCode(pass, i, j);
      var b := SaltCode(salt, j, i);
      if b > a then [CharOf(b)] + Merge(pass, salt, i, j + 1)
      else [CharOf(a)] + Merge(pass, salt, i + 1, j)
    else if i < |pass| then [CharOf(PassCode(pass, i, j))] + Merge(pass, salt, i + 1, j)
    else if j < SaltLength then [CharOf(SaltCode(salt, j, i))] + Merge(pass, salt, i, j + 1)
    else []
  }

  function Hash(pass: string, salt: string): string
    requires |salt| == SaltLength
  {
    Merge(pass, salt, 0, 0)
  }

  /** The password side writes next: its code is at least the salt's, or the salt is used up. */
  lemma MergeTakesPass(pass: string, salt: string, i: nat, j: nat)
    requires i < |pass| && j <= SaltLength && |salt| == SaltLength
    requires j < SaltLength ==> SaltCode(salt, j, i) <= PassCode(pass, i, j)
    ensures Merge(pass, salt, i, j) == [CharOf(PassCode(pass, i, j))] + Merge(pass, salt, i + 1, j)
  {
  }

  /** The salt side writes next: its code is larger, or the password is used up. */
  lemma MergeTakesSalt(pass: string, salt: string, i: nat, j: nat)
    requires i <= |pass| && j < SaltLength && |salt| == SaltLength
    requires i < |pass| ==> SaltCode(salt, j, i) > PassCode(pass, i, j)
    ensures Merge(pass, salt, i, j) == [CharOf(SaltCode(salt, j, i))] + Merge(pass, salt, i, j + 1)
  {
  }

  /** A character whose signed value is non-negative. */
  predicate Plain(c: char)
  {
    (c as int) % 256 < 128
  }

  /** The code of a plain character at non-negative counters is one of 0..126, and so is its char. */
  lemma CodeInRange(c: char, p: nat, q: nat)
    requires Plain(c)
    ensures var code := CRem(Mix(SChar(c), p, q), 127);
      0 <= code <= 126 && CharOf(code) as int == code
  {
    MixNonNegative(SChar(c), p, q);
  }

  /**
   * With no negative char in password or salt, every code is in [0, 126],
   * so every output character is one of the codes 0..126.
   */
  lemma {:induction false} MergeCodes(pass: string, salt: string, i: nat, j: nat)
    requires i <= |pass| && j <= SaltLength && |salt| == SaltLength
    requires forall k :: 0 <= k < |pass| ==> Plain(pass[k])
    requires forall k :: 0 <= k < |salt| ==> Plain(salt[k])
    ensures forall k :: 0 <= k < |Merge(pass, salt, i, j)| ==> 0 <= Merge(pass, salt, i, j)[k] as int <= 126
    decreases (|pass| - i) + (SaltLength - j)
  {
    if i < |pass| && (j == SaltLength || SaltCode(salt, j, i) <= PassCode(pass, i, j)) {
      MergeTakesPass(pass, salt, i, j);
      CodeInRange(pass[i], i, j);
      MergeCodes(pass, salt, i + 1, j);
    } else if j < SaltLength {
      MergeTakesSalt(pass, salt, i, j);
      CodeInRange(salt[j], j, i);
      MergeCodes(pass, salt, i, j + 1);
    }
  }

  /** hash: the merge loop, then the loop over the rest of the password, then over the rest of the salt. */
  method HashPass(pass: string, salt: string) returns (newPass: string)
    requires |salt| == SaltLength
    ensures newPass == Hash(pass, salt)
    ensures |newPass| == |pass| + SaltLength
  {
    var i, j;
    newPass, i, j := MergeLoop(pass, salt);
    newPass, i := PassLoop(pass, salt, newPass, i, j);
    newPass, j := SaltLoop(pass, salt, newPass, i, j);
  }

  /** hash's first loop: while both sides remain, the larger code is written (the password's on a tie). */
  method MergeLoop(pass: string, salt: string) returns (newPass: string, i: nat, j: nat)
    requires |salt| == SaltLength
    ensures i <= |pass| && j <= SaltLength && (i == |pass| || j == SaltLength)
    ensures |newPass| == i + j && newPass + Merge(pass, salt, i, j) == Hash(pass, salt)
  {
    newPass := "";
    i, j := 0, 0;
    while i < |pass| && j < 16
      invariant 0 <= i <= |pass| && 0 <= j <= 16
      invariant |newPass| == i + j
      invariant newPass + Merge(pass, salt, i, j) == Hash(pass, salt)
      decreases |pass| - i + 16 - j
    {
      newPass, i, j := MergeStep(pass, salt, newPass, i, j);
    }
  }

  /** One turn of hash's first loop: the larger of the two codes is written and its side advances. */
  method MergeStep(pass: string, salt: string, done: string, i0: nat, j0: nat)
      returns (newPass: string, i: nat, j: nat)
    requires |salt| == SaltLength && i0 < |pass| && j0 < SaltLength
    requires |done| == i0 + j0 && done + Merge(pass, salt, i0, j0) == Hash(pass, salt)
    ensures (i, j) == (i0 + 1, j0) || (i, j) == (i0, j0 + 1)
    ensures |newPass| == i + j && newPass + Merge(pass, salt, i, j) == Hash(pass, salt)
  {
    newPass, i, j := done, i0, j0;
    var x := pass[i];
    var a := Mix(SChar(x), i, j);
    a := CRem(a, 127);
    var y := salt[j];
    var b := Mix(SChar(y), j, i);
    b := CRem(b, 127);
    assert a == PassCode(pass, i, j) && b == SaltCode(salt, j, i);
    if b > a {
      MergeTakesSalt(pass, salt, i, j);
      AppendAssoc(newPass, [CharOf(b)], Merge(pass, salt, i, j + 1));
      newPass := newPass + [CharOf(b)];
      j := j + 1;
    } else {
      MergeTakesPass(pass, salt, i, j);
      AppendAssoc(newPass, [CharOf(a)], Merge(pass, salt, i + 1, j));
      newPass := newPass + [CharOf(a)];
      i := i + 1;
    }
  }

  /** hash's second loop: the rest of the password, once the salt is used up. */
  method PassLoop(pass: string, salt: string, done: string, i0: nat, j: nat) returns (newPass: string, i: nat)
    requires |salt| == SaltLength && i0 <= |pass| && j <= SaltLength && (i0 == |pass| || j == SaltLength)
    requires |done| == i0 + j && done + Merge(pass, salt, i0, j) == Hash(pass, salt)
    ensures i == |pass| && |newPass| == i + j && newPass + Merge(pass, salt, i, j) == Hash(pass, salt)
  {
    newPass, i := done, i0;
    while i < |pass|
      invariant i0 <= i <= |pass| && (i < |pass| ==> j == SaltLength)
      invariant |newPass| == i + j
      invariant newPass + Merge(pass, salt, i, j) == Hash(pass, salt)
    {
      var x := pass[i];
      var a := Mix(SChar(x), i, j);
      a := CRem(a, 127);
      assert a == PassCode(pass, i, j);
      MergeTakesPass(pass, salt, i, j);
      AppendAssoc(newPass, [CharOf(a)], Merge(pass, salt, i + 1, j));
      newPass := newPass + [CharOf(a)];
      i := i + 1;
    }
  }

  /** hash's third loop: the rest of the salt, once the password is used up. */
  method SaltLoop(pass: string, salt: string, done: string, i: nat, j0: nat) returns (newPass: string, j: nat)
    requires |salt| == SaltLength && i == |pass| && j0 <= SaltLength
    requires |done| == i + j0 && done + Merge(pass, salt, i, j0) == Hash(pass, salt)
    ensures newPass == Hash(pass, salt) && |newPass| == |pass| + SaltLength
  {
    newPass, j := done, j0;
    while j < 16
      invariant j0 <= j <= 16
      invariant |newPass| == i + j
      invariant newPass + Merge(pass, salt, i, j) == Hash(pass, salt)
    {
      var x := salt[j];
      var a := Mix(SChar(x), j, i);
      a := CRem(a, 127);
      assert a == SaltCode(salt, j, i);
      MergeTakesSalt(pass, salt, i, j);
      AppendAssoc(newPass, [CharOf(a)], Merge(pass, salt, i, j + 1));
      newPass := newPass + [CharOf(a)];
      j := j + 1;
    }
    assert Merge(pass, salt, i, j) == [];
  }

  /** The characters create_salt appends: rand() % 127 for each of the 16 positions. */
  function SaltFrom(draw: int -> nat): (s: string)
    ensures |s| == SaltLength && forall k :: 0 <= k < |s| ==> Plain(s[k]) && s[k] as int < 127
  {
    seq(SaltLength, k requires 0 <= k < SaltLength => (draw(k) % 127) as char)
  }

  method CreateSalt(draw: int -> nat) returns (s: string)
    ensures s == SaltFrom(draw)
  {
    s := "";
    var i := 0;
    while i < 16
      invariant 0 <= i <= 16 && s == SaltFrom(draw)[..i]
    {
      var randomNum := draw(i) % 127;
      s := s + [randomNum as char];
      i := i + 1;
    }
  }

  class Guard {
    var salt: string
    var password: string
    /** Reset to 0 by every run of hash and read nowhere; it stays 0. */
    var count: int
    /** The password the object was built with. */
    ghost var original: string

    ghost predicate Valid()
      reads this
    {
      |salt| == SaltLength && count == 0 && password == Hash(original, salt)
    }

    /** security(pass): draw a salt, store the hash of pass. */
    constructor (pass: string, draw: int -> nat)
      ensures Valid() && original == pass && salt == SaltFrom(draw)
    {
      var s := CreateSalt(draw);
      var h := HashPass(pass, s);
      salt := s;
      count := 0;
      original := pass;
      password := h;
    }

    /**
     * check: true exactly when s hashes to the stored text; the original
     * password always passes, and one of another length never does.
     */
    method Check(s: string) returns (b: bool)
      requires Valid()
      ensures b <==> password == Hash(s, salt)
      ensures s == original ==> b
      ensures |s| != |original| ==> !b
    {
      var h := HashPass(s, salt);
      if password == h {
        return true;
      } else {
        return false;
      }
    }
  }
}
