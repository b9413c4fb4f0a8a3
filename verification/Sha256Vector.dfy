/** A known answer: the SHA-256 digest of the three bytes "abc", the example of appendix B.1 of FIPS 180-2. */
module Sha256Vector {
  import opened Compression
  import opened Sha256
  import opened Word32

  // The message schedule of the one padded block, in rows of eight words, and the constants of the rounds.

  predicate Row0(m: Words16) {
    && Schedule(m, 0) == 0x61626380 && Schedule(m, 1) == 0x00000000 && Schedule(m, 2) == 0x00000000
    && Schedule(m, 3) == 0x00000000
    && Schedule(m, 4) == 0x00000000 && Schedule(m, 5) == 0x00000000 && Schedule(m, 6) == 0x00000000
    && Schedule(m, 7) == 0x00000000
  }

  predicate Row1(m: Words16) {
    && Schedule(m, 8) == 0x00000000 && Schedule(m, 9) == 0x00000000 && Schedule(m, 10) == 0x00000000
    && Schedule(m, 11) == 0x00000000
    && Schedule(m, 12) == 0x00000000 && Schedule(m, 13) == 0x00000000 && Schedule(m, 14) == 0x00000000
    && Schedule(m, 15) == 0x00000018
  }

  predicate Row2(m: Words16) {
    && Schedule(m, 16) == 0x61626380 && Schedule(m, 17) == 0x000f0000 && Schedule(m, 18) == 0x7da86405
    && Schedule(m, 19) == 0x600003c6
    && Schedule(m, 20) == 0x3e9d7b78 && Schedule(m, 21) == 0x0183fc00 && Schedule(m, 22) == 0x12dcbfdb
    && Schedule(m, 23) == 0xe2e2c38e
  }

  predicate Row3(m: Words16) {
    && Schedule(m, 24) == 0xc8215c1a && Schedule(m, 25) == 0xb73679a2 && Schedule(m, 26) == 0xe5bc3909
    && Schedule(m, 27) == 0x32663c5b
    && Schedule(m, 28) == 0x9d209d67 && Schedule(m, 29) == 0xec8726cb && Schedule(m, 30) == 0x702138a4
    && Schedule(m, 31) == 0xd3b7973b
  }

  predicate Row4(m: Words16) {
    && Schedule(m, 32) == 0x93f5997f && Schedule(m, 33) == 0x3b68ba73 && Schedule(m, 34) == 0xaff4ffc1
    && Schedule(m, 35) == 0xf10a5c62
    && Schedule(m, 36) == 0x0a8b3996 && Schedule(m, 37) == 0x72af830a && Schedule(m, 38) == 0x9409e33e
    && Schedule(m, 39) == 0x24641522
  }

  predicate Row5(m: Words16) {
    && Schedule(m, 40) == 0x9f47bf94 && Schedule(m, 41) == 0xf0a64f5a && Schedule(m, 42) == 0x3e246a79
    && Schedule(m, 43) == 0x27333ba3
    && Schedule(m, 44) == 0x0c4763f2 && Schedule(m, 45) == 0x840abf27 && Schedule(m, 46) == 0x7a290d5d
    && Schedule(m, 47) == 0x065c43da
  }

  predicate Row6(m: Words16) {
    && Schedule(m, 48) == 0xfb3e89cb && Schedule(m, 49) == 0xcc7617db && Schedule(m, 50) == 0xb9e66c34
    && Schedule(m, 51) == 0xa9993667
    && Schedule(m, 52) == 0x84badedd && Schedule(m, 53) == 0xc21462bc && Schedule(m, 54) == 0x1487472c
    && Schedule(m, 55) == 0xb20f7a99
  }

  predicate Row7(m: Words16) {
    && Schedule(m, 56) == 0xef57b9cd && Schedule(m, 57) == 0xebe6b238 && Schedule(m, 58) == 0x9fe3095e
    && Schedule(m, 59) == 0x78bc8d4b
    && Schedule(m, 60) == 0xa43fcf15 && Schedule(m, 61) == 0x668b2ff8 && Schedule(m, 62) == 0xeeaba2cc
    && Schedule(m, 63) == 0x12b1edeb
  }

  lemma Constants0()
    ensures K(0) == 0x428a2f98 && K(1) == 0x71374491 && K(2) == 0xb5c0fbcf && K(3) == 0xe9b5dba5
    ensures K(4) == 0x3956c25b && K(5) == 0x59f111f1 && K(6) == 0x923f82a4 && K(7) == 0xab1c5ed5
  {
  }

  lemma Constants1()
    ensures K(8) == 0xd807aa98 && K(9) == 0x12835b01 && K(10) == 0x243185be && K(11) == 0x550c7dc3
    ensures K(12) == 0x72be5d74 && K(13) == 0x80deb1fe && K(14) == 0x9bdc06a7 && K(15) == 0xc19bf174
  {
  }

  lemma Constants2()
    ensures K(16) == 0xe49b69c1 && K(17) == 0xefbe4786 && K(18) == 0x0fc19dc6 && K(19) == 0x240ca1cc
    ensures K(20) == 0x2de92c6f && K(21) == 0x4a7484aa && K(22) == 0x5cb0a9dc && K(23) == 0x76f988da
  {
  }

  lemma Constants3()
    ensures K(24) == 0x983e5152 && K(25) == 0xa831c66d && K(26) == 0xb00327c8 && K(27) == 0xbf597fc7
    ensures K(28) == 0xc6e00bf3 && K(29) == 0xd5a79147 && K(30) == 0x06ca6351 && K(31) == 0x14292967
  {
  }

  lemma Constants4()
    ensures K(32) == 0x27b70a85 && K(33) == 0x2e1b2138 && K(34) == 0x4d2c6dfc && K(35) == 0x53380d13
    ensures K(36) == 0x650a7354 && K(37) == 0x766a0abb && K(38) == 0x81c2c92e && K(39) == 0x92722c85
  {
  }

  lemma Constants5()
    ensures K(40) == 0xa2bfe8a1 && K(41) == 0xa81a664b && K(42) == 0xc24b8b70 && K(43) == 0xc76c51a3
    ensures K(44) == 0xd192e819 && K(45) == 0xd6990624 && K(46) == 0xf40e3585 && K(47) == 0x106aa070
  {
  }

  lemma Constants6()
    ensures K(48) == 0x19a4c116 && K(49) == 0x1e376c08 && K(50) == 0x2748774c && K(51) == 0x34b0bcb5
    ensures K(52) == 0x391c0cb3 && K(53) == 0x4ed8aa4a && K(54) == 0x5b9cca4f && K(55) == 0x682e6ff3
  {
  }

  lemma Constants7()
    ensures K(56) == 0x748f82ee && K(57) == 0x78a5636f && K(58) == 0x84c87814 && K(59) == 0x8cc70208
    ensures K(60) == 0x90befffa && K(61) == 0xa4506ceb && K(62) == 0xbef9a3f7 && K(63) == 0xc67178f2
  {
  }

  lemma Rounds0(v: Vars, m: Words16)
    requires Row0(m)
    requires Rounds(v, m, 0)
             == Vars(0x6a09e667, 0xbb67ae85, 0x3c6ef372, 0xa54ff53a, 0x510e527f, 0x9b05688c, 0x1f83d9ab, 0x5be0cd19)
    ensures Rounds(v, m, 8)
            == Vars(0x85a07b5f, 0xe5030380, 0x2b4209f5, 0x04409a6a, 0x0c657a79, 0x9b27a401, 0x714260ad, 0x43ada245)
  {
    hide Rounds, Schedule, K;
    Constants0();
    RoundsNext(v, m, 0);
    RoundsNext(v, m, 1);
    assert Rounds(v, m, 2)
           == Vars(0x5a6ad9ad, 0x5d6aebcd, 0x6a09e667, 0xbb67ae85, 0x78ce7989, 0xfa2a4622, 0x510e527f, 0x9b05688c);
    RoundsNext(v, m, 2);
    RoundsNext(v, m, 3);
    assert Rounds(v, m, 4)
           == Vars(0xd550f666, 0xc8c347a7, 0x5a6ad9ad, 0x5d6aebcd, 0x24e00850, 0xf92939eb, 0x78ce7989, 0xfa2a4622);
    RoundsNext(v, m, 4);
    RoundsNext(v, m, 5);
    assert Rounds(v, m, 6)
           == Vars(0x2b4209f5, 0x04409a6a, 0xd550f666, 0xc8c347a7, 0x714260ad, 0x43ada245, 0x24e00850, 0xf92939eb);
    RoundsNext(v, m, 6);
    RoundsNext(v, m, 7);
  }

  lemma Rounds1(v: Vars, m: Words16)
    requires Row1(m)
    requires Rounds(v, m, 8)
             == Vars(0x85a07b5f, 0xe5030380, 0x2b4209f5, 0x04409a6a, 0x0c657a79, 0x9b27a401, 0x714260ad, 0x43ada245)
    ensures Rounds(v, m, 16)
            == Vars(0xb0fa238e, 0xc0645fde, 0xd932eb16, 0x87912990, 0x07590dcd, 0x0b92f20c, 0x745a48de, 0x1e578218)
  {
    hide Rounds, Schedule, K;
    Constants1();
    RoundsNext(v, m, 8);
    RoundsNext(v, m, 9);
    assert Rounds(v, m, 10)
           == Vars(0x8c87346b, 0x8e04ecb9, 0x85a07b5f, 0xe5030380, 0x1cc92596, 0x32ca2d8c, 0x0c657a79, 0x9b27a401);
    RoundsNext(v, m, 10);
    RoundsNext(v, m, 11);
    assert Rounds(v, m, 12)
           == Vars(0xf71fc5a9, 0x4798a3f4, 0x8c87346b, 0x8e04ecb9, 0x816fd6e9, 0x436b23e8, 0x1cc92596, 0x32ca2d8c);
    RoundsNext(v, m, 12);
    RoundsNext(v, m, 13);
    assert Rounds(v, m, 14)
           == Vars(0xd932eb16, 0x87912990, 0xf71fc5a9, 0x4798a3f4, 0x745a48de, 0x1e578218, 0x816fd6e9, 0x436b23e8);
    RoundsNext(v, m, 14);
    RoundsNext(v, m, 15);
  }

  lemma Rounds2(v: Vars, m: Words16)
    requires Row2(m)
    requires Rounds(v, m, 16)
             == Vars(0xb0fa238e, 0xc0645fde, 0xd932eb16, 0x87912990, 0x07590dcd, 0x0b92f20c, 0x745a48de, 0x1e578218)
    ensures Rounds(v, m, 24)
            == Vars(0xc5d53d8d, 0xa7a3623f, 0xc2606d6d, 0x9dc68b63, 0xaa47c347, 0x49f5114a, 0xe1257970, 0x8ada8930)
  {
    hide Rounds, Schedule, K;
    Constants2();
    RoundsNext(v, m, 16);
    RoundsNext(v, m, 17);
    assert Rounds(v, m, 18)
           == Vars(0xc2fbd9d1, 0x21da9a9b, 0xb0fa238e, 0xc0645fde, 0x846ee454, 0x8034229c, 0x07590dcd, 0x0b92f20c);
    RoundsNext(v, m, 18);
    RoundsNext(v, m, 19);
    assert Rounds(v, m, 20)
           == Vars(0xe1f20c33, 0xfe777bbf, 0xc2fbd9d1, 0x21da9a9b, 0xb0638179, 0xcc899961, 0x846ee454, 0x8034229c);
    RoundsNext(v, m, 20);
    RoundsNext(v, m, 21);
    assert Rounds(v, m, 22)
           == Vars(0xc2606d6d, 0x9dc68b63, 0xe1f20c33, 0xfe777bbf, 0xe1257970, 0x8ada8930, 0xb0638179, 0xcc899961);
    RoundsNext(v, m, 22);
    RoundsNext(v, m, 23);
  }

  lemma Rounds3(v: Vars, m: Words16)
    requires Row3(m)
    requires Rounds(v, m, 24)
             == Vars(0xc5d53d8d, 0xa7a3623f, 0xc2606d6d, 0x9dc68b63, 0xaa47c347, 0x49f5114a, 0xe1257970, 0x8ada8930)
    ensures Rounds(v, m, 32)
            == Vars(0x73b33bf5, 0xea992a22, 0xa0060b30, 0x363482c9, 0xba591112, 0x0109ab3a, 0xade79437, 0x6112a3b7)
  {
    hide Rounds, Schedule, K;
    Constants3();
    RoundsNext(v, m, 24);
    RoundsNext(v, m, 25);
    assert Rounds(v, m, 26)
           == Vars(0xcde8037d, 0x1c2c2838, 0xc5d53d8d, 0xa7a3623f, 0x14383d8e, 0x2823ef91, 0xaa47c347, 0x49f5114a);
    RoundsNext(v, m, 26);
    RoundsNext(v, m, 27);
    assert Rounds(v, m, 28)
           == Vars(0x77d37528, 0xb62ec4bc, 0xcde8037d, 0x1c2c2838, 0xedffbff8, 0xc74c6516, 0x14383d8e, 0x2823ef91);
    RoundsNext(v, m, 28);
    RoundsNext(v, m, 29);
    assert Rounds(v, m, 30)
           == Vars(0xa0060b30, 0x363482c9, 0x77d37528, 0xb62ec4bc, 0xade79437, 0x6112a3b7, 0xedffbff8, 0xc74c6516);
    RoundsNext(v, m, 30);
    RoundsNext(v, m, 31);
  }

  lemma Rounds4(v: Vars, m: Words16)
    requires Row4(m)
    requires Rounds(v, m, 32)
             == Vars(0x73b33bf5, 0xea992a22, 0xa0060b30, 0x363482c9, 0xba591112, 0x0109ab3a, 0xade79437, 0x6112a3b7)
    ensures Rounds(v, m, 40)
            == Vars(0x79ea687a, 0x6dc57a8a, 0x34df1604, 0x41a65cb1, 0x1efbc0a0, 0xf0781bc8, 0xa507a53d, 0x0772a26b)
  {
    hide Rounds, Schedule, K;
    Constants4();
    RoundsNext(v, m, 32);
    RoundsNext(v, m, 33);
    assert Rounds(v, m, 34)
           == Vars(0xfe604df5, 0x98e12507, 0x73b33bf5, 0xea992a22, 0x59249dd3, 0x9cd9f5f6, 0xba591112, 0x0109ab3a);
    RoundsNext(v, m, 34);
    RoundsNext(v, m, 35);
    assert Rounds(v, m, 36)
           == Vars(0x65a0cfe4, 0xa9a7738c, 0xfe604df5, 0x98e12507, 0xf4b002d6, 0x085f3833, 0x59249dd3, 0x9cd9f5f6);
    RoundsNext(v, m, 36);
    RoundsNext(v, m, 37);
    assert Rounds(v, m, 38)
           == Vars(0x34df1604, 0x41a65cb1, 0x65a0cfe4, 0xa9a7738c, 0xa507a53d, 0x0772a26b, 0xf4b002d6, 0x085f3833);
    RoundsNext(v, m, 38);
    RoundsNext(v, m, 39);
  }

  lemma Rounds5(v: Vars, m: Words16)
    requires Row5(m)
    requires Rounds(v, m, 40)
             == Vars(0x79ea687a, 0x6dc57a8a, 0x34df1604, 0x41a65cb1, 0x1efbc0a0, 0xf0781bc8, 0xa507a53d, 0x0772a26b)
    ensures Rounds(v, m, 48)
            == Vars(0x4172328d, 0xa14c14b0, 0x72ab4b91, 0x26628815, 0xfecf0bc6, 0xd57b94a9, 0xb7755da1, 0xa80f11f0)
  {
    hide Rounds, Schedule, K;
    Constants5();
    RoundsNext(v, m, 40);
    RoundsNext(v, m, 41);
    assert Rounds(v, m, 42)
           == Vars(0xdf46652f, 0xd6670766, 0x79ea687a, 0x6dc57a8a, 0x838b2711, 0x26352d63, 0x1efbc0a0, 0xf0781bc8);
    RoundsNext(v, m, 42);
    RoundsNext(v, m, 43);
    assert Rounds(v, m, 44)
           == Vars(0x9d4baf93, 0x17aa0dfe, 0xdf46652f, 0xd6670766, 0xfda24c2e, 0xdecd4715, 0x838b2711, 0x26352d63);
    RoundsNext(v, m, 44);
    RoundsNext(v, m, 45);
    assert Rounds(v, m, 46)
           == Vars(0x72ab4b91, 0x26628815, 0x9d4baf93, 0x17aa0dfe, 0xb7755da1, 0xa80f11f0, 0xfda24c2e, 0xdecd4715);
    RoundsNext(v, m, 46);
    RoundsNext(v, m, 47);
  }

  lemma Rounds6(v: Vars, m: Words16)
    requires Row6(m)
    requires Rounds(v, m, 48)
             == Vars(0x4172328d, 0xa14c14b0, 0x72ab4b91, 0x26628815, 0xfecf0bc6, 0xd57b94a9, 0xb7755da1, 0xa80f11f0)
    ensures Rounds(v, m, 56)
            == Vars(0x38cc9913, 0x3ec45cdb, 0xf5702fdb, 0x101fd28f, 0x54cb266b, 0xe50e1b4f, 0x9f4787c3, 0x529e7d00)
  {
    hide Rounds, Schedule, K;
    Constants6();
    RoundsNext(v, m, 48);
    RoundsNext(v, m, 49);
    assert Rounds(v, m, 50)
           == Vars(0xf11bfaa8, 0x05757ceb, 0x4172328d, 0xa14c14b0, 0x6e5c390c, 0xbd714038, 0xfecf0bc6, 0xd57b94a9);
    RoundsNext(v, m, 50);
    RoundsNext(v, m, 51);
    assert Rounds(v, m, 52)
           == Vars(0x886e7a22, 0x7a0508a1, 0xf11bfaa8, 0x05757ceb, 0x49231c1e, 0x52f1ccf7, 0x6e5c390c, 0xbd714038);
    RoundsNext(v, m, 52);
    RoundsNext(v, m, 53);
    assert Rounds(v, m, 54)
           == Vars(0xf5702fdb, 0x101fd28f, 0x886e7a22, 0x7a0508a1, 0x9f4787c3, 0x529e7d00, 0x49231c1e, 0x52f1ccf7);
    RoundsNext(v, m, 54);
    RoundsNext(v, m, 55);
  }

  lemma Rounds7(v: Vars, m: Words16)
    requires Row7(m)
    requires Rounds(v, m, 56)
             == Vars(0x38cc9913, 0x3ec45cdb, 0xf5702fdb, 0x101fd28f, 0x54cb266b, 0xe50e1b4f, 0x9f4787c3, 0x529e7d00)
    ensures Rounds(v, m, 64)
            == Vars(0x506e3058, 0xd39a2165, 0x04d24d6c, 0xb85e2ce9, 0x5ef50f24, 0xfb121210, 0x948d25b6, 0x961f4894)
  {
    hide Rounds, Schedule, K;
    Constants7();
    RoundsNext(v, m, 56);
    RoundsNext(v, m, 57);
    assert Rounds(v, m, 58)
           == Vars(0xc062d46f, 0xfcd1887b, 0x38cc9913, 0x3ec45cdb, 0x7e44008e, 0x9b5e906c, 0x54cb266b, 0xe50e1b4f);
    RoundsNext(v, m, 58);
    RoundsNext(v, m, 59);
    assert Rounds(v, m, 60)
           == Vars(0xb6ae8fff, 0xffb70472, 0xc062d46f, 0xfcd1887b, 0xb21bad3d, 0x6d83bfc6, 0x7e44008e, 0x9b5e906c);
    RoundsNext(v, m, 60);
    RoundsNext(v, m, 61);
    assert Rounds(v, m, 62)
           == Vars(0x04d24d6c, 0xb85e2ce9, 0xb6ae8fff, 0xffb70472, 0x948d25b6, 0x961f4894, 0xb21bad3d, 0x6d83bfc6);
    RoundsNext(v, m, 62);
    RoundsNext(v, m, 63);
  }

  lemma Words2(m: Words16)
    requires Row0(m) && Row1(m)
    ensures Row2(m)
  {
    hide Schedule;
    ScheduleNext(m, 16);
    ScheduleNext(m, 17);
    ScheduleNext(m, 18);
    ScheduleNext(m, 19);
    ScheduleNext(m, 20);
    ScheduleNext(m, 21);
    ScheduleNext(m, 22);
    ScheduleNext(m, 23);
  }

  lemma Words3(m: Words16)
    requires Row1(m) && Row2(m)
    ensures Row3(m)
  {
    hide Schedule;
    ScheduleNext(m, 24);
    ScheduleNext(m, 25);
    ScheduleNext(m, 26);
    ScheduleNext(m, 27);
    ScheduleNext(m, 28);
    ScheduleNext(m, 29);
    ScheduleNext(m, 30);
    ScheduleNext(m, 31);
  }

  lemma Words4(m: Words16)
    requires Row2(m) && Row3(m)
    ensures Row4(m)
  {
    hide Schedule;
    ScheduleNext(m, 32);
    ScheduleNext(m, 33);
    ScheduleNext(m, 34);
    ScheduleNext(m, 35);
    ScheduleNext(m, 36);
    ScheduleNext(m, 37);
    ScheduleNext(m, 38);
    ScheduleNext(m, 39);
  }

  lemma Words5(m: Words16)
    requires Row3(m) && Row4(m)
    ensures Row5(m)
  {
    hide Schedule;
    ScheduleNext(m, 40);
    ScheduleNext(m, 41);
    ScheduleNext(m, 42);
    ScheduleNext(m, 43);
    ScheduleNext(m, 44);
    ScheduleNext(m, 45);
    ScheduleNext(m, 46);
    ScheduleNext(m, 47);
  }

  lemma Words6(m: Words16)
    requires Row4(m) && Row5(m)
    ensures Row6(m)
  {
    hide Schedule;
    ScheduleNext(m, 48);
    ScheduleNext(m, 49);
    ScheduleNext(m, 50);
    ScheduleNext(m, 51);
    ScheduleNext(m, 52);
    ScheduleNext(m, 53);
    ScheduleNext(m, 54);
    ScheduleNext(m, 55);
  }

  lemma Words7(m: Words16)
    requires Row5(m) && Row6(m)
    ensures Row7(m)
  {
    hide Schedule;
    ScheduleNext(m, 56);
    ScheduleNext(m, 57);
    ScheduleNext(m, 58);
    ScheduleNext(m, 59);
    ScheduleNext(m, 60);
    ScheduleNext(m, 61);
    ScheduleNext(m, 62);
    ScheduleNext(m, 63);
  }

  /** 61 62 63 80, 59 zeros in all, and the length of 24 bits. */
  lemma PaddedAbc()
    ensures Padded([0x61, 0x62, 0x63]) == [0x61, 0x62, 0x63, 0x80] + Zeros(59) + [24]
  {
    hide Zeros, ByteOf;
    var m: seq<bv8> := [0x61, 0x62, 0x63];
    assert 8 * |m| == 24 && (55 - |m|) % 64 == 52;
    SmallBytes();
    assert LengthBytes(24) == LowBytes(0, 7) + [24];
    ZeroBytes(7);
    ZerosAdd(52, 7);
    assert Zeros(52) + (Zeros(7) + [24]) == (Zeros(52) + Zeros(7)) + [24];
    assert Padded(m) == m + [0x80] + Zeros(52) + (Zeros(7) + [24]);
    assert m + [0x80] == [0x61, 0x62, 0x63, 0x80];
  }

  lemma SmallBytes()
    ensures ByteOf(24) == 24 && ByteOf(0) == 0
  {
  }

  lemma ZerosAdd(a: nat, b: nat)
    ensures Zeros(a) + Zeros(b) == Zeros(a + b)
  {
  }

  lemma {:induction false} ZeroBytes(k: nat)
    ensures LowBytes(0, k) == Zeros(k)
  {
    hide ByteOf;
    if k > 0 {
      SmallBytes();
      ZeroBytes(k - 1);
      assert Zeros(k - 1) + [0] == Zeros(k);
    }
  }

  lemma FirstRows(block: Bytes64)
    requires block == [0x61, 0x62, 0x63, 0x80] + Zeros(59) + [24]
    ensures Row0(WordsOf(block)) && Row1(WordsOf(block))
  {
    hide Schedule, BigEndian, WordsOf;
    FirstWords();
    forall i | 0 <= i < 16
      ensures Schedule(WordsOf(block), i) == if i == 0 then 0x61626380 else if i == 15 then 24 else 0
    {
      WordAt(block, i);
      assert forall j :: 4 <= j < 63 ==> block[j] == 0;
    }
  }

  lemma FirstWords()
    ensures BigEndian(0x61, 0x62, 0x63, 0x80) == 0x61626380
    ensures BigEndian(0, 0, 0, 0) == 0 && BigEndian(0, 0, 0, 24) == 24
  {
  }

  lemma AbcRounds(v: Vars, m: Words16)
    requires v == Vars(0x6a09e667, 0xbb67ae85, 0x3c6ef372, 0xa54ff53a, 0x510e527f, 0x9b05688c, 0x1f83d9ab, 0x5be0cd19)
    requires Row0(m) && Row1(m)
    ensures Rounds(v, m, 64)
            == Vars(0x506e3058, 0xd39a2165, 0x04d24d6c, 0xb85e2ce9, 0x5ef50f24, 0xfb121210, 0x948d25b6, 0x961f4894)
  {
    hide *;
    Words2(m);
    Words3(m);
    Words4(m);
    Words5(m);
    Words6(m);
    Words7(m);
    RoundsStart(v, m);
    Rounds0(v, m);
    Rounds1(v, m);
    Rounds2(v, m);
    Rounds3(v, m);
    Rounds4(v, m);
    Rounds5(v, m);
    Rounds6(v, m);
    Rounds7(v, m);
  }

  function AbcHash(): Hash {
    [0xba7816bf, 0x8f01cfea, 0x414140de, 0x5dae2223,
     0xb00361a3, 0x96177a9c, 0xb410ff61, 0xf20015ad]
  }

  lemma AbcEnds()
    ensures Start(InitialHash())
            == Vars(0x6a09e667, 0xbb67ae85, 0x3c6ef372, 0xa54ff53a, 0x510e527f, 0x9b05688c, 0x1f83d9ab, 0x5be0cd19)
    ensures AddTo(InitialHash(),
                  Vars(0x506e3058, 0xd39a2165, 0x04d24d6c, 0xb85e2ce9, 0x5ef50f24, 0xfb121210, 0x948d25b6, 0x961f4894))
            == AbcHash()
  {
  }

  lemma AbcCompressed(block: Bytes64)
    requires block == [0x61, 0x62, 0x63, 0x80] + Zeros(59) + [24]
    ensures Compressed(InitialHash(), block) == AbcHash()
  {
    hide *;
    AbcEnds();
    FirstRows(block);
    CompressedIs(InitialHash(), block);
    AbcRounds(Start(InitialHash()), WordsOf(block));
  }

  /** ba7816bf 8f01cfea 414140de 5dae2223 b00361a3 96177a9c b410ff61 f20015ad. */
  lemma AbcDigest()
    ensures Digest([0x61, 0x62, 0x63])
            == [0xba, 0x78, 0x16, 0xbf, 0x8f, 0x01, 0xcf, 0xea, 0x41, 0x41, 0x40, 0xde, 0x5d, 0xae, 0x22, 0x23,
                0xb0, 0x03, 0x61, 0xa3, 0x96, 0x17, 0x7a, 0x9c, 0xb4, 0x10, 0xff, 0x61, 0xf2, 0x00, 0x15, 0xad]
  {
    hide Padded, Compressed, BytesOfHash, InitialHash;
    PaddedAbc();
    var block := Padded([0x61, 0x62, 0x63]);
    assert |block| == 64 && block[..64] == block && block[64..] == [];
    assert HashBlocks(InitialHash(), block) == HashBlocks(Compressed(InitialHash(), block), []);
    AbcCompressed(block);
    BytesOfEight(AbcHash());
  }

  lemma BytesOfEight(h: Hash)
    ensures BytesOfHash(h) == BytesOfWord(h[0]) + BytesOfWord(h[1]) + BytesOfWord(h[2]) + BytesOfWord(h[3])
                              + BytesOfWord(h[4]) + BytesOfWord(h[5]) + BytesOfWord(h[6]) + BytesOfWord(h[7])
  {
    hide BytesOfWord, BytesOfHash;
    FirstFour(h);
    LastWord(h, 5);
    LastWord(h, 6);
    LastWord(h, 7);
    LastWord(h, 8);
    assert h[..8] == h;
  }

  lemma FirstFour(h: Hash)
    ensures BytesOfHash(h[..4]) == BytesOfWord(h[0]) + BytesOfWord(h[1]) + BytesOfWord(h[2]) + BytesOfWord(h[3])
  {
    hide BytesOfWord, BytesOfHash;
    NoWords(h);
    LastWord(h, 1);
    LastWord(h, 2);
    LastWord(h, 3);
    LastWord(h, 4);
  }

  lemma NoWords(h: seq<bv32>)
    ensures BytesOfHash(h[..0]) == []
  {
  }

  lemma LastWord(h: seq<bv32>, k: nat)
    requires 0 < k <= |h|
    ensures BytesOfHash(h[..k]) == BytesOfHash(h[..k - 1]) + BytesOfWord(h[k - 1])
  {
    hide BytesOfWord;
    assert h[..k][..k - 1] == h[..k - 1];
  }
}
