/** The padding functions of cipher.twl.c, for the 16-byte blocks of AES. */
module Padding {
  import opened ByteNumbers
  import opened ConstantTime
  import opened Octets

  const ERR_CIPHER_INVALID_PADDING: int := -0x6200

  datatype Padding = Pkcs7 | OneAndZeros | ZerosAndLen | ZeroPadding | NoPadding

  /** Data of less than a block, padded. */
  function Pad(p: Padding, d: Octets): (b: Block)
    requires |d| < 16 && p != NoPadding
    ensures b[..|d|] == d
  {
    var n := 16 - |d|;
    match p
    case Pkcs7 => d + Repeat(n, Byte(n))
    case OneAndZeros => d + [0x80] + Zeros(n - 1)
    case ZerosAndLen => d + Zeros(n - 1) + [Byte(n)]
    case ZeroPadding => d + Zeros(n)
  }

  /** A block is the padding of its first n bytes. */
  predicate PadsTo(p: Padding, b: Block, n: nat) {
    p != NoPadding && n < 16 && b == Pad(p, b[..n])
  }

  // ----- adding padding in place

  /** add_pkcs_padding, add_one_and_zeros_padding, add_zeros_and_len_padding and add_zeros_padding. */
  method AddPadding(p: Padding, output: array<bv8>, dataLen: nat)
    requires output.Length == 16 && dataLen < 16 && p != NoPadding
    modifies output
    ensures output[..] == Pad(p, old(output[..dataLen]))
  {
    match p {
      case Pkcs7 => AddPkcs(output, dataLen);
      case OneAndZeros => AddOneAndZeros(output, dataLen);
      case ZerosAndLen => AddZerosAndLen(output, dataLen);
      case ZeroPadding => AddZeros(output, dataLen);
    }
  }

  method AddPkcs(output: array<bv8>, dataLen: nat)
    requires output.Length == 16 && dataLen < 16
    modifies output
    ensures output[..] == Pad(Pkcs7, old(output[..dataLen]))
  {
    var paddingLen := 16 - dataLen;
    for i := 0 to paddingLen
      invariant output[..dataLen] == old(output[..dataLen])
      invariant forall k | dataLen <= k < dataLen + i :: output[k] == Byte(paddingLen)
    {
      output[dataLen + i] := Byte(paddingLen);
    }
  }

  method AddOneAndZeros(output: array<bv8>, dataLen: nat)
    requires output.Length == 16 && dataLen < 16
    modifies output
    ensures output[..] == Pad(OneAndZeros, old(output[..dataLen]))
  {
    var paddingLen := 16 - dataLen;
    output[dataLen] := 0x80;
    for i := 1 to paddingLen
      invariant output[..dataLen] == old(output[..dataLen]) && output[dataLen] == 0x80
      invariant forall k | dataLen < k < dataLen + i :: output[k] == 0
    {
      output[dataLen + i] := 0x00;
    }
  }

  method AddZerosAndLen(output: array<bv8>, dataLen: nat)
    requires output.Length == 16 && dataLen < 16
    modifies output
    ensures output[..] == Pad(ZerosAndLen, old(output[..dataLen]))
  {
    var paddingLen := 16 - dataLen;
    for i := 1 to paddingLen
      invariant output[..dataLen] == old(output[..dataLen])
      invariant forall k | dataLen <= k < dataLen + i - 1 :: output[k] == 0
    {
      output[dataLen + i - 1] := 0x00;
    }
    output[15] := Byte(paddingLen);
  }

  method AddZeros(output: array<bv8>, dataLen: nat)
    requires output.Length == 16 && dataLen < 16
    modifies output
    ensures output[..] == Pad(ZeroPadding, old(output[..dataLen]))
  {
    for i := dataLen to 16
      invariant output[..dataLen] == old(output[..dataLen])
      invariant forall k | dataLen <= k < i :: output[k] == 0
    {
      output[i] := 0;
    }
  }

  // ----- numbers of one byte as words

  /** A number below 256 as a 32-bit word. */
  function Word(k: nat): bv32
    requires k < 256
  {
    Byte(k) as bv32
  }

  lemma WordOrder(x: bv8, y: bv8)
    ensures Less(x as bv32, y as bv32) <==> x < y
    ensures x as bv32 == y as bv32 <==> x == y
  {}

  lemma WordLess(i: nat, j: nat)
    requires i < 256 && j < 256
    ensures Less(Word(i), Word(j)) <==> i < j
  {
    hide Less, Byte;
    WordOrder(Byte(i), Byte(j));
    ByteLess(i, j);
  }

  /** The branch-free comparisons of such numbers. */
  lemma Comparisons(i: nat, j: nat)
    requires i < 256 && j < 256
    ensures CtGe(Word(i), Word(j)) == Mask(i >= j)
    ensures CtGt(Word(j), Word(i)) == Mask(i < j)
  {
    hide CtLt, CtGe, Mask, Less, Word;
    CtGeExact(Word(i), Word(j));
    CtLtExact(Word(i), Word(j));
    WordLess(i, j);
  }

  lemma WordOfByte(x: bv8)
    ensures x as nat < 256 && Byte(x as nat) == x && Word(x as nat) == x as bv32
  {
    ByteRange(x);
  }

  lemma WordValue(k: nat)
    requires k < 256
    ensures Word(k) as nat == k
  {
    ByteValue(k);
    Widened(Byte(k));
  }

  lemma Widened(x: bv8)
    ensures (x as bv32) as nat == x as nat
  {}

  /** The index at which padding of n bytes starts. */
  lemma {:induction false} WordSub(n: nat)
    requires n <= 16
    ensures Sub(16, Word(n)) == Word(16 - n)
  {
    hide Sub;
    if n == 0 {
      SubNothing();
    } else {
      WordSub(n - 1);
      Pred(Byte(16 - n));
      Pred(Byte(n - 1));
      ByteSuccessor(16 - n);
      ByteSuccessor(n - 1);
      SubSuccessor(Word(n - 1));
    }
  }

  lemma SubNothing()
    ensures Sub(16, Word(0)) == Word(16)
  {}

  lemma SubSuccessor(x: bv32)
    ensures Sub(16, x) == Sub(16, x + 1) + 1
  {}

  lemma Pred(x: bv8)
    ensures x != 0xFF ==> (x + 1) as bv32 == x as bv32 + 1
  {}

  lemma ByteSuccessor(k: nat)
    requires k < 255
    ensures Byte(k) != 0xFF && Byte(k + 1) == Byte(k) + 1
  {
    ByteValue(k);
    ByteValue(k + 1);
    NextByte(Byte(k));
    ByteRange(Byte(k) + 1);
  }

  // ----- finding the padding, with branch-free conditions

  function CtAnd(x: Condition, y: Condition): Condition {
    x & y
  }

  function CtOr(x: Condition, y: Condition): Condition {
    x | y
  }

  lemma Masks(x: bool, y: bool)
    ensures CtAnd(Mask(x), Mask(y)) == Mask(x && y)
    ensures CtOr(Mask(x), Mask(y)) == Mask(x || y)
    ensures CtNot(Mask(x)) == Mask(!x)
  {}

  /** mbedtls_ct_error_if_else_0: the error is chosen as a word and negated as a number. */
  function ErrorIf(bad: Condition): int {
    -(CtIf(bad, 0x6200, 0) as int)
  }

  lemma ErrorIfBad(bad: bool)
    ensures ErrorIf(Mask(bad)) == if bad then ERR_CIPHER_INVALID_PADDING else 0
  {}

  /** Whether a padding length that was read from the last byte can be one. */
  function BadLength(n: bv8): Condition {
    CtOr(CtGt(n as bv32, 16), CtEq(n as bv32, 0))
  }

  lemma BadLengthExact(n: bv8)
    ensures BadLength(n) == Mask(n as nat > 16 || n as nat == 0)
  {
    hide CtGt, CtEq, CtOr, Mask, Word;
    WordOfByte(n);
    Comparisons(16, n as nat);
    SixteenIsWord();
    Masks(16 < n as nat, n as bv32 == 0);
    WordOfByte(0);
    WordOrder(n, 0);
  }

  lemma SixteenIsWord()
    ensures Word(16) == 16
  {}

  /** mbedtls_get_pkcs_padding. */
  method GetPkcs(input: Block) returns (ret: int, dataLen: nat)
    ensures ret == 0 <==> exists n | 0 <= n < 16 :: PadsTo(Pkcs7, input, n)
    ensures ret == 0 ==> PadsTo(Pkcs7, input, dataLen)
    ensures ret != 0 ==> ret == ERR_CIPHER_INVALID_PADDING && dataLen == 0
  {
    hide CtGe, CtGt, CtEq, CtNe, CtOr, CtAnd, CtIf, Mask, Word, PadsTo, ErrorIf, BadLength, Sub;
    var paddingLen := input[15];
    ghost var n := paddingLen as nat;
    var bad := BadLength(paddingLen);
    BadLengthExact(paddingLen);
    ghost var isBad := n > 16 || n == 0;
    var padIdx := Sub(16, paddingLen as bv32);
    WordOfByte(paddingLen);
    if n <= 16 {
      WordSub(n);
    }
    for i := 0 to 16
      invariant bad == Mask(isBad)
      invariant n <= 16 ==> (isBad <==> n == 0 || exists k | 0 <= k < i :: k >= 16 - n && input[k] != paddingLen)
      invariant n > 16 ==> isBad
    {
      var inPadding := CtGe(Word(i), padIdx);
      var different := CtNe(input[i] as bv32, paddingLen as bv32);
      WordOrder(input[i], paddingLen);
      var more := CtAnd(inPadding, different);
      if n <= 16 {
        Comparisons(i, 16 - n);
        Masks(i >= 16 - n, input[i] != paddingLen);
        Masks(isBad, i >= 16 - n && input[i] != paddingLen);
        isBad := isBad || (i >= 16 - n && input[i] != paddingLen);
      } else {
        AbsorbedTrue(more);
      }
      bad := CtOr(bad, more);
    }
    ChosenLength(isBad, n, padIdx);
    dataLen := CtIf(bad, 0, padIdx) as nat;
    ret := ErrorIf(bad);
    ErrorIfBad(isBad);
    PkcsFound(input);
  }

  /** The padding length, unless it is bad. */
  lemma ChosenLength(bad: bool, n: nat, padIdx: bv32)
    requires !bad ==> n <= 16 && padIdx == Word(16 - n)
    ensures CtIf(Mask(bad), 0, padIdx) as nat == if bad then 0 else 16 - n
  {
    hide Word, CtIf;
    if !bad {
      WordValue(16 - n);
    }
  }

  /** All bytes from m on are the last one. */
  predicate Uniform(b: Block, m: nat) {
    forall k | m <= k < 16 :: b[k] == b[15]
  }

  lemma PkcsForm(b: Block, m: nat)
    requires m < 16
    ensures PadsTo(Pkcs7, b, m) <==> b[15] as nat == 16 - m && Uniform(b, m)
  {
    ByteValue(16 - m);
    WordOfByte(b[15]);
    var x := Pad(Pkcs7, b[..m]);
    assert forall k | m <= k < 16 :: x[k] == Byte(16 - m);
    assert forall k | 0 <= k < m :: x[k] == x[..m][k] == b[k];
    if b[15] as nat == 16 - m && Uniform(b, m) {
      assert b == x;
    }
  }

  lemma PkcsFound(b: Block)
    ensures var n := b[15] as nat;
      if 1 <= n <= 16 && Uniform(b, 16 - n) then PadsTo(Pkcs7, b, 16 - n) else forall m | 0 <= m < 16 :: !PadsTo(Pkcs7, b, m)
  {
    hide PadsTo, Uniform;
    var n := b[15] as nat;
    if 1 <= n <= 16 && Uniform(b, 16 - n) {
      PkcsForm(b, 16 - n);
    } else {
      forall m | 0 <= m < 16 ensures !PadsTo(Pkcs7, b, m) {
        PkcsForm(b, m);
      }
    }
  }

  lemma AbsorbedTrue(x: Condition)
    ensures CtOr(Mask(true), x) == Mask(true)
  {}

  /** From m on there are only zeros, up to n. */
  predicate ZerosFrom(b: Block, m: nat, n: nat) {
    forall k | m <= k < n && k < 16 :: b[k] == 0
  }

  lemma OneAndZerosForm(b: Block, m: nat)
    requires m < 16
    ensures PadsTo(OneAndZeros, b, m) <==> b[m] == 0x80 && ZerosFrom(b, m + 1, 16)
  {
    var x := Pad(OneAndZeros, b[..m]);
    assert x[m] == 0x80 && forall k | m < k < 16 :: x[k] == 0;
    assert forall k | 0 <= k < m :: x[k] == x[..m][k] == b[k];
    if b[m] == 0x80 && ZerosFrom(b, m + 1, 16) {
      assert b == x;
    }
  }

  /** The last byte that is not zero decides. */
  lemma OneAndZerosFound(b: Block, at: nat)
    requires at < 16 && ZerosFrom(b, at + 1, 16) && (at == 0 || b[at] != 0)
    ensures if b[at] == 0x80 then PadsTo(OneAndZeros, b, at) else forall m | 0 <= m < 16 :: !PadsTo(OneAndZeros, b, m)
  {
    hide PadsTo;
    forall m | 0 <= m < 16 ensures PadsTo(OneAndZeros, b, m) <==> b[m] == 0x80 && ZerosFrom(b, m + 1, 16) {
      OneAndZerosForm(b, m);
    }
  }

  lemma IfMask(b: bool, x: bv32, y: bv32)
    ensures CtIf(Mask(b), x, y) == if b then x else y
  {}

  lemma NonZeroByte(x: bv8)
    ensures CtBool(x as bv32) == Mask(x != 0)
    ensures CtNe(x as bv32, 0x80) == Mask(x != 0x80)
    ensures CtNe(x as bv32, 0) == Mask(x != 0)
  {
    hide CtBool, CtNe;
  }

  /** get_one_and_zeros_padding. */
  method GetOneAndZeros(input: Block) returns (ret: int, dataLen: nat)
    ensures ret == 0 <==> exists n | 0 <= n < 16 :: PadsTo(OneAndZeros, input, n)
    ensures ret == 0 ==> PadsTo(OneAndZeros, input, dataLen)
    ensures ret != 0 ==> ret == ERR_CIPHER_INVALID_PADDING
    ensures dataLen < 16 && ZerosFrom(input, dataLen + 1, 16) && (dataLen == 0 || input[dataLen] != 0)
  {
    hide CtBool, CtNe, CtNot, CtAnd, CtIf, Mask, Word, PadsTo, ErrorIf;
    var inPadding, bad := CT_TRUE, CT_TRUE;
    var len := Word(0);
    ghost var found, at, isBad := false, 0, true;
    TrueIsMask();
    var i := 15;
    while i >= 0
      invariant -1 <= i <= 15
      invariant inPadding == Mask(!found) && bad == Mask(isBad) && len == Word(at)
      invariant !found ==> at == 0 && isBad && ZerosFrom(input, i + 1, 16)
      invariant found ==> i < at < 16 && input[at] != 0 && ZerosFrom(input, at + 1, 16) && isBad == (input[at] != 0x80)
    {
      var isNonzero := CtBool(input[i] as bv32);
      NonZeroByte(input[i]);
      var hitFirst := CtAnd(isNonzero, inPadding);
      Masks(input[i] != 0, !found);
      IfMask(input[i] != 0 && !found, Word(i), len);
      len := CtIf(hitFirst, Word(i), len);
      IfMask(input[i] != 0 && !found, CtNe(input[i] as bv32, 0x80), bad);
      bad := CtIf(hitFirst, CtNe(input[i] as bv32, 0x80), bad);
      Masks(!found, !(input[i] != 0));
      Masks(input[i] != 0, true);
      inPadding := CtAnd(inPadding, CtNot(isNonzero));
      if input[i] != 0 && !found {
        found, at, isBad := true, i, input[i] != 0x80;
      }
      i := i - 1;
    }
    WordValue(at);
    dataLen := len as nat;
    ret := ErrorIf(bad);
    ErrorIfBad(isBad);
    OneAndZerosFound(input, at);
  }

  lemma TrueIsMask()
    ensures CT_TRUE == Mask(true) && CT_FALSE == Mask(false)
  {}

  lemma ZerosAndLenForm(b: Block, m: nat)
    requires m < 16
    ensures PadsTo(ZerosAndLen, b, m) <==> b[15] as nat == 16 - m && ZerosFrom(b, m, 15)
  {
    ByteValue(16 - m);
    WordOfByte(b[15]);
    var x := Pad(ZerosAndLen, b[..m]);
    assert x[15] == Byte(16 - m) && forall k | m <= k < 15 :: x[k] == 0;
    assert forall k | 0 <= k < m :: x[k] == x[..m][k] == b[k];
    if b[15] as nat == 16 - m && ZerosFrom(b, m, 15) {
      assert b == x;
    }
  }

  lemma ZerosAndLenFound(b: Block)
    ensures var n := b[15] as nat;
      if 1 <= n <= 16 && ZerosFrom(b, 16 - n, 15) then PadsTo(ZerosAndLen, b, 16 - n)
      else forall m | 0 <= m < 16 :: !PadsTo(ZerosAndLen, b, m)
  {
    hide PadsTo, ZerosFrom;
    var n := b[15] as nat;
    if 1 <= n <= 16 && ZerosFrom(b, 16 - n, 15) {
      ZerosAndLenForm(b, 16 - n);
    } else {
      forall m | 0 <= m < 16 ensures !PadsTo(ZerosAndLen, b, m) {
        ZerosAndLenForm(b, m);
      }
    }
  }

  /** get_zeros_and_len_padding. */
  method GetZerosAndLen(input: Block) returns (ret: int, dataLen: nat)
    ensures ret == 0 <==> exists n | 0 <= n < 16 :: PadsTo(ZerosAndLen, input, n)
    ensures ret == 0 ==> PadsTo(ZerosAndLen, input, dataLen)
    ensures ret != 0 ==> ret == ERR_CIPHER_INVALID_PADDING
  {
    hide CtGe, CtGt, CtEq, CtBool, CtOr, CtAnd, Mask, Word, PadsTo, ErrorIf, BadLength, Sub;
    var paddingLen := input[15];
    ghost var n := paddingLen as nat;
    var padIdx := Sub(16, paddingLen as bv32);
    dataLen := padIdx as nat;
    var bad := BadLength(paddingLen);
    BadLengthExact(paddingLen);
    ghost var isBad := n > 16 || n == 0;
    WordOfByte(paddingLen);
    if n <= 16 {
      WordSub(n);
      WordValue(16 - n);
    }
    for i := 0 to 15
      invariant bad == Mask(isBad)
      invariant n <= 16 ==> (isBad <==> n == 0 || !ZerosFrom(input, 16 - n, i))
      invariant n > 16 ==> isBad
    {
      var isPadding := CtGe(Word(i), padIdx);
      NonZeroByte(input[i]);
      var nonzeroPadByte := CtAnd(isPadding, CtBool(input[i] as bv32));
      if n <= 16 {
        Comparisons(i, 16 - n);
        Masks(i >= 16 - n, input[i] != 0);
        Masks(isBad, i >= 16 - n && input[i] != 0);
        isBad := isBad || (i >= 16 - n && input[i] != 0);
      } else {
        AbsorbedTrue(nonzeroPadByte);
      }
      bad := CtOr(bad, nonzeroPadByte);
    }
    ret := ErrorIf(bad);
    ErrorIfBad(isBad);
    ZerosAndLenFound(input);
  }

  lemma XorMasks(x: bool, y: bool)
    ensures Mask(x) ^ Mask(y) == Mask(x != y)
  {}

  /** get_zeros_padding: exactly the trailing zeros go. */
  method GetZeros(input: Block) returns (ret: int, dataLen: nat)
    ensures ret == 0 && dataLen <= 16
    ensures ZerosFrom(input, dataLen, 16) && (dataLen == 0 || input[dataLen - 1] != 0)
  {
    hide CtNe, CtOr, CtIf, Mask, Word;
    var done := CT_FALSE;
    var len := Word(0);
    ghost var isDone, at := false, 0;
    TrueIsMask();
    var i := 16;
    while i > 0
      invariant 0 <= i <= 16 && done == Mask(isDone) && len == Word(at)
      invariant !isDone ==> at == 0 && ZerosFrom(input, i, 16)
      invariant isDone ==> i < at <= 16 && input[at - 1] != 0 && ZerosFrom(input, at, 16)
    {
      var prevDone := done;
      NonZeroByte(input[i - 1]);
      Masks(isDone, input[i - 1] != 0);
      done := CtOr(done, CtNe(input[i - 1] as bv32, 0));
      ghost var hit := (isDone || input[i - 1] != 0) != isDone;
      XorMasks(isDone || input[i - 1] != 0, isDone);
      IfMask(hit, Word(i), len);
      len := CtIf(done ^ prevDone, Word(i), len);
      if hit {
        at := i;
      }
      isDone := isDone || input[i - 1] != 0;
      i := i - 1;
    }
    WordValue(at);
    ret, dataLen := 0, len as nat;
  }

  /** Whether n bytes of the block are data. */
  predicate Strips(p: Padding, b: Block, n: nat) {
    match p
    case NoPadding => n == 16
    case ZeroPadding => n <= 16 && ZerosFrom(b, n, 16) && (n == 0 || b[n - 1] != 0)
    case _ => PadsTo(p, b, n)
  }

  /** The get-padding function of each padding accepts the blocks of its add-padding function and no
      others, and finds the length of the data. */
  method GetPadding(p: Padding, input: Block) returns (ret: int, dataLen: nat)
    ensures ret == 0 <==> exists n | 0 <= n <= 16 :: Strips(p, input, n)
    ensures ret == 0 ==> dataLen <= 16 && Strips(p, input, dataLen)
    ensures ret != 0 ==> ret == ERR_CIPHER_INVALID_PADDING
  {
    hide ZerosFrom, Pad;
    match p {
      case Pkcs7 => ret, dataLen := GetPkcs(input);
      case OneAndZeros => ret, dataLen := GetOneAndZeros(input);
      case ZerosAndLen => ret, dataLen := GetZerosAndLen(input);
      case ZeroPadding => ret, dataLen := GetZeros(input);
      case NoPadding => ret, dataLen := 0, 16;
    }
    assert ret == 0 ==> Strips(p, input, dataLen);
  }

  /** The length is never ambiguous. */
  lemma StripsUnique(p: Padding, b: Block, m: nat, n: nat)
    requires Strips(p, b, m) && Strips(p, b, n)
    ensures m == n
  {
    hide Pad;
    match p {
      case Pkcs7 => PkcsForm(b, m); PkcsForm(b, n);
      case OneAndZeros => OneAndZerosForm(b, m); OneAndZerosForm(b, n);
      case ZerosAndLen => ZerosAndLenForm(b, m); ZerosAndLenForm(b, n);
      case _ =>
    }
  }

  /** What was added is stripped; with zero padding, unless the data end with a zero. */
  lemma PadStrips(p: Padding, d: Octets)
    requires |d| < 16 && p != NoPadding
    ensures Strips(p, Pad(p, d), |d|) <==> p != ZeroPadding || d == [] || d[|d| - 1] != 0
  {
    var b := Pad(p, d);
    assert b[..|d|] == d;
    if p == ZeroPadding {
      assert forall k | |d| <= k < 16 :: b[k] == 0;
      assert d != [] ==> b[|d| - 1] == b[..|d|][|d| - 1];
    }
  }
}
