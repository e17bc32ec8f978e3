/** The tables of `explode`, sixteen numbers a row, and the rules they follow. */
module ExplodeTables {
  const CPLEN2_0: seq<int> := [2, 3, 4, 5, 6, 7, 8, 9, 10, 11, 12, 13, 14, 15, 16, 17]
  const CPLEN2_1: seq<int> := [18, 19, 20, 21, 22, 23, 24, 25, 26, 27, 28, 29, 30, 31, 32, 33]
  const CPLEN2_2: seq<int> := [34, 35, 36, 37, 38, 39, 40, 41, 42, 43, 44, 45, 46, 47, 48, 49]
  const CPLEN2_3: seq<int> := [50, 51, 52, 53, 54, 55, 56, 57, 58, 59, 60, 61, 62, 63, 64, 65]
  const CPLEN2: seq<int> := CPLEN2_0 + CPLEN2_1 + CPLEN2_2 + CPLEN2_3

  const CPLEN3_0: seq<int> := [3, 4, 5, 6, 7, 8, 9, 10, 11, 12, 13, 14, 15, 16, 17, 18]
  const CPLEN3_1: seq<int> := [19, 20, 21, 22, 23, 24, 25, 26, 27, 28, 29, 30, 31, 32, 33, 34]
  const CPLEN3_2: seq<int> := [35, 36, 37, 38, 39, 40, 41, 42, 43, 44, 45, 46, 47, 48, 49, 50]
  const CPLEN3_3: seq<int> := [51, 52, 53, 54, 55, 56, 57, 58, 59, 60, 61, 62, 63, 64, 65, 66]
  const CPLEN3: seq<int> := CPLEN3_0 + CPLEN3_1 + CPLEN3_2 + CPLEN3_3

  const EXTRA_0: seq<int> := [0, 0, 0, 0, 0, 0, 0, 0, 0, 0, 0, 0, 0, 0, 0, 0]
  const EXTRA_1: seq<int> := [0, 0, 0, 0, 0, 0, 0, 0, 0, 0, 0, 0, 0, 0, 0, 0]
  const EXTRA_2: seq<int> := [0, 0, 0, 0, 0, 0, 0, 0, 0, 0, 0, 0, 0, 0, 0, 0]
  const EXTRA_3: seq<int> := [0, 0, 0, 0, 0, 0, 0, 0, 0, 0, 0, 0, 0, 0, 0, 8]
  const EXTRA: seq<int> := EXTRA_0 + EXTRA_1 + EXTRA_2 + EXTRA_3

  const CPDIST4_0: seq<int> := [1, 65, 129, 193, 257, 321, 385, 449, 513, 577, 641, 705, 769, 833, 897, 961]
  const CPDIST4_1: seq<int> :=
      [1025, 1089, 1153, 1217, 1281, 1345, 1409, 1473, 1537, 1601, 1665, 1729, 1793, 1857, 1921, 1985]
  const CPDIST4_2: seq<int> :=
      [2049, 2113, 2177, 2241, 2305, 2369, 2433, 2497, 2561, 2625, 2689, 2753, 2817, 2881, 2945, 3009]
  const CPDIST4_3: seq<int> :=
      [3073, 3137, 3201, 3265, 3329, 3393, 3457, 3521, 3585, 3649, 3713, 3777, 3841, 3905, 3969, 4033]
  const CPDIST4: seq<int> := CPDIST4_0 + CPDIST4_1 + CPDIST4_2 + CPDIST4_3

  const CPDIST8_0: seq<int> := [1, 129, 257, 385, 513, 641, 769, 897, 1025, 1153, 1281, 1409, 1537, 1665, 1793, 1921]
  const CPDIST8_1: seq<int> :=
      [2049, 2177, 2305, 2433, 2561, 2689, 2817, 2945, 3073, 3201, 3329, 3457, 3585, 3713, 3841, 3969]
  const CPDIST8_2: seq<int> :=
      [4097, 4225, 4353, 4481, 4609, 4737, 4865, 4993, 5121, 5249, 5377, 5505, 5633, 5761, 5889, 6017]
  const CPDIST8_3: seq<int> :=
      [6145, 6273, 6401, 6529, 6657, 6785, 6913, 7041, 7169, 7297, 7425, 7553, 7681, 7809, 7937, 8065]
  const CPDIST8: seq<int> := CPDIST8_0 + CPDIST8_1 + CPDIST8_2 + CPDIST8_3

  /** Sixteen numbers `step` apart. */
  ghost predicate Row(row: seq<int>, first: int, step: int) {
    |row| == 16 && forall i :: 0 <= i < 16 ==> row[i] == first + step * i
  }

  lemma Rows(a: seq<int>, b: seq<int>, c: seq<int>, d: seq<int>, first: int, step: int, i: nat)
    requires Row(a, first, step) && Row(b, first + 16 * step, step)
    requires Row(c, first + 32 * step, step) && Row(d, first + 48 * step, step) && i < 64
    ensures |a + b + c + d| == 64 && (a + b + c + d)[i] == first + step * i
  {
    var k := i % 16;
    assert step * (16 + k) == 16 * step + step * k;
    assert step * (32 + k) == 32 * step + step * k;
    assert step * (48 + k) == 48 * step + step * k;
  }

  lemma ShortLengthRows()
    ensures Row(CPLEN2_0, 2, 1) && Row(CPLEN2_1, 18, 1)
    ensures Row(CPLEN2_2, 34, 1) && Row(CPLEN2_3, 50, 1)
  {
  }

  lemma ShortLengths(i: nat)
    requires i < 64
    ensures |CPLEN2| == 64 && CPLEN2[i] == 2 + i
  {
    hide Row;
    ShortLengthRows();
    Rows(CPLEN2_0, CPLEN2_1, CPLEN2_2, CPLEN2_3, 2, 1, i);
  }

  lemma LongLengthRows()
    ensures Row(CPLEN3_0, 3, 1) && Row(CPLEN3_1, 19, 1)
    ensures Row(CPLEN3_2, 35, 1) && Row(CPLEN3_3, 51, 1)
  {
  }

  lemma LongLengths(i: nat)
    requires i < 64
    ensures |CPLEN3| == 64 && CPLEN3[i] == 3 + i
  {
    hide Row;
    LongLengthRows();
    Rows(CPLEN3_0, CPLEN3_1, CPLEN3_2, CPLEN3_3, 3, 1, i);
  }

  lemma NearDistanceRows()
    ensures Row(CPDIST4_0, 1, 64) && Row(CPDIST4_1, 1025, 64)
    ensures Row(CPDIST4_2, 2049, 64) && Row(CPDIST4_3, 3073, 64)
  {
  }

  lemma NearDistances(i: nat)
    requires i < 64
    ensures |CPDIST4| == 64 && CPDIST4[i] == 1 + 64 * i
  {
    hide Row;
    NearDistanceRows();
    Rows(CPDIST4_0, CPDIST4_1, CPDIST4_2, CPDIST4_3, 1, 64, i);
  }

  lemma FarDistanceRows()
    ensures Row(CPDIST8_0, 1, 128) && Row(CPDIST8_1, 2049, 128)
    ensures Row(CPDIST8_2, 4097, 128) && Row(CPDIST8_3, 6145, 128)
  {
  }

  lemma FarDistances(i: nat)
    requires i < 64
    ensures |CPDIST8| == 64 && CPDIST8[i] == 1 + 128 * i
  {
    hide Row;
    FarDistanceRows();
    Rows(CPDIST8_0, CPDIST8_1, CPDIST8_2, CPDIST8_3, 1, 128, i);
  }

  lemma ExtraBits(i: nat)
    requires i < 64
    ensures |EXTRA| == 64 && EXTRA[i] == if i == 63 then 8 else 0
  {
    if i < 16 {
      assert EXTRA[i] == EXTRA_0[i];
    } else if i < 32 {
      assert EXTRA[i] == EXTRA_1[i - 16];
    } else if i < 48 {
      assert EXTRA[i] == EXTRA_2[i - 32];
    } else {
      assert EXTRA[i] == EXTRA_3[i - 48];
    }
  }
}
