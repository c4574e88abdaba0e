/** Every side of a tooth, looked up: no two have the same run, and each has one that runs the other way. */
module GearTable {
  import opened Gears

  lemma Row(e: Side, from: nat, to: nat, twin: Side, from': nat, to': nat)
    requires From(e) == from < 24 && To(e) == to < 24 && SideOf(RunOf(from, to)) == e
    requires Local(from) != Local(to) || Ahead(from) != Ahead(to)
    requires IsSide(twin) && From(twin) == from' && To(twin) == to'
    requires SideOf(RunOf(to, from)) == twin && RunOf(from', to') == RunOf(to, from)
    ensures Listed(e)
  {
  }

  lemma SidesOf0(j: nat, k: nat)
    requires j == 0 && k < 3
    ensures Listed(Side(j, k))
  {
    match k
    case 0 => Row(Side(0, 0), 1, 2, Side(2, 2), 2, 1);
    case 1 => Row(Side(0, 1), 2, 0, Side(3, 2), 0, 2);
    case _ => Row(Side(0, 2), 0, 1, Side(4, 1), 13, 12);
  }

  lemma SidesOf1(j: nat, k: nat)
    requires j == 1 && k < 3
    ensures Listed(Side(j, k))
  {
    match k
    case 0 => Row(Side(1, 0), 1, 3, Side(11, 2), 3, 10);
    case 1 => Row(Side(1, 1), 3, 4, Side(13, 2), 4, 3);
    case _ => Row(Side(1, 2), 4, 1, Side(2, 0), 1, 4);
  }

  lemma SidesOf2(j: nat, k: nat)
    requires j == 2 && k < 3
    ensures Listed(Side(j, k))
  {
    match k
    case 0 => Row(Side(2, 0), 1, 4, Side(1, 2), 4, 1);
    case 1 => Row(Side(2, 1), 4, 2, Side(15, 2), 11, 4);
    case _ => Row(Side(2, 2), 2, 1, Side(0, 0), 1, 2);
  }

  lemma SidesOf3(j: nat, k: nat)
    requires j == 3 && k < 3
    ensures Listed(Side(j, k))
  {
    match k
    case 0 => Row(Side(3, 0), 2, 12, Side(4, 2), 12, 2);
    case 1 => Row(Side(3, 1), 12, 0, Side(19, 0), 0, 12);
    case _ => Row(Side(3, 2), 0, 2, Side(0, 1), 2, 0);
  }

  lemma SidesOf4(j: nat, k: nat)
    requires j == 4 && k < 3
    ensures Listed(Side(j, k))
  {
    match k
    case 0 => Row(Side(4, 0), 2, 13, Side(17, 2), 22, 11);
    case 1 => Row(Side(4, 1), 13, 12, Side(0, 2), 0, 1);
    case _ => Row(Side(4, 2), 12, 2, Side(3, 0), 2, 12);
  }

  lemma SidesOf5(j: nat, k: nat)
    requires j == 5 && k < 3
    ensures Listed(Side(j, k))
  {
    match k
    case 0 => Row(Side(5, 0), 6, 5, Side(9, 1), 17, 18);
    case 1 => Row(Side(5, 1), 5, 7, Side(8, 0), 7, 5);
    case _ => Row(Side(5, 2), 7, 6, Side(7, 0), 6, 7);
  }

  lemma SidesOf6(j: nat, k: nat)
    requires j == 6 && k < 3
    ensures Listed(Side(j, k))
  {
    match k
    case 0 => Row(Side(6, 0), 6, 9, Side(7, 2), 9, 6);
    case 1 => Row(Side(6, 1), 9, 8, Side(12, 1), 8, 9);
    case _ => Row(Side(6, 2), 8, 6, Side(10, 1), 6, 8);
  }

  lemma SidesOf7(j: nat, k: nat)
    requires j == 7 && k < 3
    ensures Listed(Side(j, k))
  {
    match k
    case 0 => Row(Side(7, 0), 6, 7, Side(5, 2), 7, 6);
    case 1 => Row(Side(7, 1), 7, 9, Side(14, 1), 9, 7);
    case _ => Row(Side(7, 2), 9, 6, Side(6, 0), 6, 9);
  }

  lemma SidesOf8(j: nat, k: nat)
    requires j == 8 && k < 3
    ensures Listed(Side(j, k))
  {
    match k
    case 0 => Row(Side(8, 0), 7, 5, Side(5, 1), 5, 7);
    case 1 => Row(Side(8, 1), 5, 17, Side(18, 1), 17, 5);
    case _ => Row(Side(8, 2), 17, 7, Side(9, 0), 7, 17);
  }

  lemma SidesOf9(j: nat, k: nat)
    requires j == 9 && k < 3
    ensures Listed(Side(j, k))
  {
    match k
    case 0 => Row(Side(9, 0), 7, 17, Side(8, 2), 17, 7);
    case 1 => Row(Side(9, 1), 17, 18, Side(5, 0), 6, 5);
    case _ => Row(Side(9, 2), 18, 7, Side(16, 1), 7, 18);
  }

  lemma SidesOf10(j: nat, k: nat)
    requires j == 10 && k < 3
    ensures Listed(Side(j, k))
  {
    match k
    case 0 => Row(Side(10, 0), 10, 6, Side(17, 1), 18, 22);
    case 1 => Row(Side(10, 1), 6, 8, Side(6, 2), 8, 6);
    case _ => Row(Side(10, 2), 8, 10, Side(11, 0), 10, 8);
  }

  lemma SidesOf11(j: nat, k: nat)
    requires j == 11 && k < 3
    ensures Listed(Side(j, k))
  {
    match k
    case 0 => Row(Side(11, 0), 10, 8, Side(10, 2), 8, 10);
    case 1 => Row(Side(11, 1), 8, 3, Side(12, 0), 3, 8);
    case _ => Row(Side(11, 2), 3, 10, Side(1, 0), 1, 3);
  }

  lemma SidesOf12(j: nat, k: nat)
    requires j == 12 && k < 3
    ensures Listed(Side(j, k))
  {
    match k
    case 0 => Row(Side(12, 0), 3, 8, Side(11, 1), 8, 3);
    case 1 => Row(Side(12, 1), 8, 9, Side(6, 1), 9, 8);
    case _ => Row(Side(12, 2), 9, 3, Side(13, 0), 3, 9);
  }

  lemma SidesOf13(j: nat, k: nat)
    requires j == 13 && k < 3
    ensures Listed(Side(j, k))
  {
    match k
    case 0 => Row(Side(13, 0), 3, 9, Side(12, 2), 9, 3);
    case 1 => Row(Side(13, 1), 9, 4, Side(14, 0), 4, 9);
    case _ => Row(Side(13, 2), 4, 3, Side(1, 1), 3, 4);
  }

  lemma SidesOf14(j: nat, k: nat)
    requires j == 14 && k < 3
    ensures Listed(Side(j, k))
  {
    match k
    case 0 => Row(Side(14, 0), 4, 9, Side(13, 1), 9, 4);
    case 1 => Row(Side(14, 1), 9, 7, Side(7, 1), 7, 9);
    case _ => Row(Side(14, 2), 7, 4, Side(15, 0), 4, 7);
  }

  lemma SidesOf15(j: nat, k: nat)
    requires j == 15 && k < 3
    ensures Listed(Side(j, k))
  {
    match k
    case 0 => Row(Side(15, 0), 4, 7, Side(14, 2), 7, 4);
    case 1 => Row(Side(15, 1), 7, 11, Side(16, 0), 11, 7);
    case _ => Row(Side(15, 2), 11, 4, Side(2, 1), 4, 2);
  }

  lemma SidesOf16(j: nat, k: nat)
    requires j == 16 && k < 3
    ensures Listed(Side(j, k))
  {
    match k
    case 0 => Row(Side(16, 0), 11, 7, Side(15, 1), 7, 11);
    case 1 => Row(Side(16, 1), 7, 18, Side(9, 2), 18, 7);
    case _ => Row(Side(16, 2), 18, 11, Side(17, 0), 11, 18);
  }

  lemma SidesOf17(j: nat, k: nat)
    requires j == 17 && k < 3
    ensures Listed(Side(j, k))
  {
    match k
    case 0 => Row(Side(17, 0), 11, 18, Side(16, 2), 18, 11);
    case 1 => Row(Side(17, 1), 18, 22, Side(10, 0), 10, 6);
    case _ => Row(Side(17, 2), 22, 11, Side(4, 0), 2, 13);
  }

  lemma SidesOf18(j: nat, k: nat)
    requires j == 18 && k < 3
    ensures Listed(Side(j, k))
  {
    match k
    case 0 => Row(Side(18, 0), 0, 17, Side(19, 2), 17, 0);
    case 1 => Row(Side(18, 1), 17, 5, Side(8, 1), 5, 17);
    case _ => Row(Side(18, 2), 5, 0, Side(19, 1), 12, 17);
  }

  lemma SidesOf19(j: nat, k: nat)
    requires j == 19 && k < 3
    ensures Listed(Side(j, k))
  {
    match k
    case 0 => Row(Side(19, 0), 0, 12, Side(3, 1), 12, 0);
    case 1 => Row(Side(19, 1), 12, 17, Side(18, 2), 5, 0);
    case _ => Row(Side(19, 2), 17, 0, Side(18, 0), 0, 17);
  }

  lemma ListedBy(j: nat, k: nat)
    requires j < 20 && k < 3
    ensures Listed(Side(j, k))
  {
    match j
    case 0 => SidesOf0(j, k);
    case 1 => SidesOf1(j, k);
    case 2 => SidesOf2(j, k);
    case 3 => SidesOf3(j, k);
    case 4 => SidesOf4(j, k);
    case 5 => SidesOf5(j, k);
    case 6 => SidesOf6(j, k);
    case 7 => SidesOf7(j, k);
    case 8 => SidesOf8(j, k);
    case 9 => SidesOf9(j, k);
    case 10 => SidesOf10(j, k);
    case 11 => SidesOf11(j, k);
    case 12 => SidesOf12(j, k);
    case 13 => SidesOf13(j, k);
    case 14 => SidesOf14(j, k);
    case 15 => SidesOf15(j, k);
    case 16 => SidesOf16(j, k);
    case 17 => SidesOf17(j, k);
    case 18 => SidesOf18(j, k);
    case _ => SidesOf19(j, k);
  }

  lemma AllListed(e: Side)
    requires IsSide(e)
    ensures Listed(e)
  {
    assert e == Side(e.j, e.k);
    ListedBy(e.j, e.k);
  }
}
