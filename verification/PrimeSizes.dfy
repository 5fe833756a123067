/**
  The smaller table sizes are prime, by trial division: all sizes up to the
  first growth of a map of the default size.
 */
module PrimeSizes {
  import opened ProbeSequence

  lemma Prime197()
    ensures IsPrime(197)
  {
    TrialDivision(197, 11, 13);
  }

  lemma Prime457()
    ensures IsPrime(457)
  {
    TrialDivision(457, 17, 19);
  }

  lemma Prime967()
    ensures IsPrime(967)
  {
    TrialDivision(967, 29, 31);
  }

  lemma Prime1987()
    ensures IsPrime(1987)
  {
    TrialDivision(1987, 41, 43);
  }

  lemma Prime4019()
    ensures IsPrime(4019)
  {
    TrialDivision(4019, 59, 61);
  }

  lemma Low8101()
    ensures NoDivisorBySixes(8101, 89)
  {
    assert NoDivisorBySixes(8101, 65);
  }

  lemma High8101()
    ensures NoDivisorBySixes(8101, 91)
  {
    assert NoDivisorBySixes(8101, 61);
  }

  lemma Prime8101()
    ensures IsPrime(8101)
  {
    Low8101();
    High8101();
    TrialDivision(8101, 89, 91);
  }

  lemma Low16273()
    ensures NoDivisorBySixes(16273, 125)
  {
    assert NoDivisorBySixes(16273, 65);
  }

  lemma High16273()
    ensures NoDivisorBySixes(16273, 127)
  {
    assert NoDivisorBySixes(16273, 61);
    assert NoDivisorBySixes(16273, 121);
  }

  lemma Prime16273()
    ensures IsPrime(16273)
  {
    Low16273();
    High16273();
    TrialDivision(16273, 125, 127);
  }

  lemma Low32633()
    ensures NoDivisorBySixes(32633, 179)
  {
    assert NoDivisorBySixes(32633, 65);
    assert NoDivisorBySixes(32633, 125);
  }

  lemma High32633()
    ensures NoDivisorBySixes(32633, 181)
  {
    assert NoDivisorBySixes(32633, 61);
    assert NoDivisorBySixes(32633, 121);
  }

  lemma Prime32633()
    ensures IsPrime(32633)
  {
    Low32633();
    High32633();
    TrialDivision(32633, 179, 181);
  }

  lemma Low65413()
    ensures NoDivisorBySixes(65413, 251)
  {
    assert NoDivisorBySixes(65413, 65);
    assert NoDivisorBySixes(65413, 125);
    assert NoDivisorBySixes(65413, 185);
    assert NoDivisorBySixes(65413, 245);
  }

  lemma High65413()
    ensures NoDivisorBySixes(65413, 253)
  {
    assert NoDivisorBySixes(65413, 61);
    assert NoDivisorBySixes(65413, 121);
    assert NoDivisorBySixes(65413, 181);
    assert NoDivisorBySixes(65413, 241);
  }

  lemma Prime65413()
    ensures IsPrime(65413)
  {
    Low65413();
    High65413();
    TrialDivision(65413, 251, 253);
  }

  lemma Low130973()
    ensures NoDivisorBySixes(130973, 359)
  {
    assert NoDivisorBySixes(130973, 65);
    assert NoDivisorBySixes(130973, 125);
    assert NoDivisorBySixes(130973, 185);
    assert NoDivisorBySixes(130973, 245);
    assert NoDivisorBySixes(130973, 305);
  }

  lemma High130973()
    ensures NoDivisorBySixes(130973, 361)
  {
    assert NoDivisorBySixes(130973, 61);
    assert NoDivisorBySixes(130973, 121);
    assert NoDivisorBySixes(130973, 181);
    assert NoDivisorBySixes(130973, 241);
    assert NoDivisorBySixes(130973, 301);
  }

  lemma Prime130973()
    ensures IsPrime(130973)
  {
    Low130973();
    High130973();
    TrialDivision(130973, 359, 361);
  }

  lemma Low262051To365()
    ensures NoDivisorBySixes(262051, 365)
  {
    assert NoDivisorBySixes(262051, 65);
    assert NoDivisorBySixes(262051, 125);
    assert NoDivisorBySixes(262051, 185);
    assert NoDivisorBySixes(262051, 245);
    assert NoDivisorBySixes(262051, 305);
  }

  lemma Low262051()
    ensures NoDivisorBySixes(262051, 509)
  {
    Low262051To365();
    assert NoDivisorBySixes(262051, 425);
    assert NoDivisorBySixes(262051, 485);
  }

  lemma High262051To361()
    ensures NoDivisorBySixes(262051, 361)
  {
    assert NoDivisorBySixes(262051, 61);
    assert NoDivisorBySixes(262051, 121);
    assert NoDivisorBySixes(262051, 181);
    assert NoDivisorBySixes(262051, 241);
    assert NoDivisorBySixes(262051, 301);
  }

  lemma High262051()
    ensures NoDivisorBySixes(262051, 511)
  {
    High262051To361();
    assert NoDivisorBySixes(262051, 421);
    assert NoDivisorBySixes(262051, 481);
  }

  lemma Prime262051()
    ensures IsPrime(262051)
  {
    Low262051();
    High262051();
    TrialDivision(262051, 509, 511);
  }

  lemma Low524201To365()
    ensures NoDivisorBySixes(524201, 365)
  {
    assert NoDivisorBySixes(524201, 65);
    assert NoDivisorBySixes(524201, 125);
    assert NoDivisorBySixes(524201, 185);
    assert NoDivisorBySixes(524201, 245);
    assert NoDivisorBySixes(524201, 305);
  }

  lemma Low524201()
    ensures NoDivisorBySixes(524201, 719)
  {
    Low524201To365();
    assert NoDivisorBySixes(524201, 425);
    assert NoDivisorBySixes(524201, 485);
    assert NoDivisorBySixes(524201, 545);
    assert NoDivisorBySixes(524201, 605);
    assert NoDivisorBySixes(524201, 665);
  }

  lemma High524201To361()
    ensures NoDivisorBySixes(524201, 361)
  {
    assert NoDivisorBySixes(524201, 61);
    assert NoDivisorBySixes(524201, 121);
    assert NoDivisorBySixes(524201, 181);
    assert NoDivisorBySixes(524201, 241);
    assert NoDivisorBySixes(524201, 301);
  }

  lemma High524201()
    ensures NoDivisorBySixes(524201, 721)
  {
    High524201To361();
    assert NoDivisorBySixes(524201, 421);
    assert NoDivisorBySixes(524201, 481);
    assert NoDivisorBySixes(524201, 541);
    assert NoDivisorBySixes(524201, 601);
    assert NoDivisorBySixes(524201, 661);
  }

  lemma Prime524201()
    ensures IsPrime(524201)
  {
    Low524201();
    High524201();
    TrialDivision(524201, 719, 721);
  }

  lemma Low1048391To365()
    ensures NoDivisorBySixes(1048391, 365)
  {
    assert NoDivisorBySixes(1048391, 65);
    assert NoDivisorBySixes(1048391, 125);
    assert NoDivisorBySixes(1048391, 185);
    assert NoDivisorBySixes(1048391, 245);
    assert NoDivisorBySixes(1048391, 305);
  }

  lemma Low1048391To725()
    ensures NoDivisorBySixes(1048391, 725)
  {
    Low1048391To365();
    assert NoDivisorBySixes(1048391, 425);
    assert NoDivisorBySixes(1048391, 485);
    assert NoDivisorBySixes(1048391, 545);
    assert NoDivisorBySixes(1048391, 605);
    assert NoDivisorBySixes(1048391, 665);
  }

  lemma Low1048391()
    ensures NoDivisorBySixes(1048391, 1019)
  {
    Low1048391To725();
    assert NoDivisorBySixes(1048391, 785);
    assert NoDivisorBySixes(1048391, 845);
    assert NoDivisorBySixes(1048391, 905);
    assert NoDivisorBySixes(1048391, 965);
  }

  lemma High1048391To361()
    ensures NoDivisorBySixes(1048391, 361)
  {
    assert NoDivisorBySixes(1048391, 61);
    assert NoDivisorBySixes(1048391, 121);
    assert NoDivisorBySixes(1048391, 181);
    assert NoDivisorBySixes(1048391, 241);
    assert NoDivisorBySixes(1048391, 301);
  }

  lemma High1048391To721()
    ensures NoDivisorBySixes(1048391, 721)
  {
    High1048391To361();
    assert NoDivisorBySixes(1048391, 421);
    assert NoDivisorBySixes(1048391, 481);
    assert NoDivisorBySixes(1048391, 541);
    assert NoDivisorBySixes(1048391, 601);
    assert NoDivisorBySixes(1048391, 661);
  }

  lemma High1048391()
    ensures NoDivisorBySixes(1048391, 1021)
  {
    High1048391To721();
    assert NoDivisorBySixes(1048391, 781);
    assert NoDivisorBySixes(1048391, 841);
    assert NoDivisorBySixes(1048391, 901);
    assert NoDivisorBySixes(1048391, 961);
  }

  lemma Prime1048391()
    ensures IsPrime(1048391)
  {
    Low1048391();
    High1048391();
    TrialDivision(1048391, 1019, 1021);
  }

  lemma Low2097023To365()
    ensures NoDivisorBySixes(2097023, 365)
  {
    assert NoDivisorBySixes(2097023, 65);
    assert NoDivisorBySixes(2097023, 125);
    assert NoDivisorBySixes(2097023, 185);
    assert NoDivisorBySixes(2097023, 245);
    assert NoDivisorBySixes(2097023, 305);
  }

  lemma Low2097023To725()
    ensures NoDivisorBySixes(2097023, 725)
  {
    Low2097023To365();
    assert NoDivisorBySixes(2097023, 425);
    assert NoDivisorBySixes(2097023, 485);
    assert NoDivisorBySixes(2097023, 545);
    assert NoDivisorBySixes(2097023, 605);
    assert NoDivisorBySixes(2097023, 665);
  }

  lemma Low2097023To1085()
    ensures NoDivisorBySixes(2097023, 1085)
  {
    Low2097023To725();
    assert NoDivisorBySixes(2097023, 785);
    assert NoDivisorBySixes(2097023, 845);
    assert NoDivisorBySixes(2097023, 905);
    assert NoDivisorBySixes(2097023, 965);
    assert NoDivisorBySixes(2097023, 1025);
  }

  lemma Low2097023()
    ensures NoDivisorBySixes(2097023, 1445)
  {
    Low2097023To1085();
    assert NoDivisorBySixes(2097023, 1145);
    assert NoDivisorBySixes(2097023, 1205);
    assert NoDivisorBySixes(2097023, 1265);
    assert NoDivisorBySixes(2097023, 1325);
    assert NoDivisorBySixes(2097023, 1385);
  }

  lemma High2097023To361()
    ensures NoDivisorBySixes(2097023, 361)
  {
    assert NoDivisorBySixes(2097023, 61);
    assert NoDivisorBySixes(2097023, 121);
    assert NoDivisorBySixes(2097023, 181);
    assert NoDivisorBySixes(2097023, 241);
    assert NoDivisorBySixes(2097023, 301);
  }

  lemma High2097023To721()
    ensures NoDivisorBySixes(2097023, 721)
  {
    High2097023To361();
    assert NoDivisorBySixes(2097023, 421);
    assert NoDivisorBySixes(2097023, 481);
    assert NoDivisorBySixes(2097023, 541);
    assert NoDivisorBySixes(2097023, 601);
    assert NoDivisorBySixes(2097023, 661);
  }

  lemma High2097023To1081()
    ensures NoDivisorBySixes(2097023, 1081)
  {
    High2097023To721();
    assert NoDivisorBySixes(2097023, 781);
    assert NoDivisorBySixes(2097023, 841);
    assert NoDivisorBySixes(2097023, 901);
    assert NoDivisorBySixes(2097023, 961);
    assert NoDivisorBySixes(2097023, 1021);
  }

  lemma High2097023()
    ensures NoDivisorBySixes(2097023, 1447)
  {
    High2097023To1081();
    assert NoDivisorBySixes(2097023, 1141);
    assert NoDivisorBySixes(2097023, 1201);
    assert NoDivisorBySixes(2097023, 1261);
    assert NoDivisorBySixes(2097023, 1321);
    assert NoDivisorBySixes(2097023, 1381);
    assert NoDivisorBySixes(2097023, 1441);
  }

  lemma Prime2097023()
    ensures IsPrime(2097023)
  {
    Low2097023();
    High2097023();
    TrialDivision(2097023, 1445, 1447);
  }
}
