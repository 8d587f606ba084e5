/** The Brazilian states reference table: the 27 federative units with their
    names, macro-regions and country (src/ingest/data.py,
    create_country_dimension). */
module BrazilianStates {
  import opened Wrappers

  const StateCodes: seq<string> := [
    "AC", "AL", "AP", "AM", "BA", "CE", "DF", "ES", "GO",
    "MA", "MT", "MS", "MG", "PA", "PB", "PR", "PE", "PI",
    "RJ", "RN", "RS", "RO", "RR", "SC", "SP", "SE", "TO"]

  const StateNames: seq<string> := [
    "Acre", "Alagoas", "Amapá", "Amazonas", "Bahia", "Ceará",
    "Distrito Federal", "Espírito Santo", "Goiás", "Maranhão",
    "Mato Grosso", "Mato Grosso do Sul", "Minas Gerais", "Pará",
    "Paraíba", "Paraná", "Pernambuco", "Piauí", "Rio de Janeiro",
    "Rio Grande do Norte", "Rio Grande do Sul", "Rondônia", "Roraima",
    "Santa Catarina", "São Paulo", "Sergipe", "Tocantins"]

  const StateRegions: seq<string> := [
    "North", "Northeast", "North", "North", "Northeast", "Northeast",
    "Central-West", "Southeast", "Central-West", "Northeast",
    "Central-West", "Central-West", "Southeast", "North", "Northeast",
    "South", "Northeast", "Northeast", "Southeast", "Northeast",
    "South", "North", "North", "South", "Southeast", "Northeast", "North"]

  /** A list of n copies of x (Python's [x] * n). */
  function Repeat(x: string, n: nat): (r: seq<string>)
    ensures |r| == n
    ensures forall i :: 0 <= i < n ==> r[i] == x
  {
    if n == 0 then [] else Repeat(x, n - 1) + [x]
  }

  /** The country column: the one value repeated 27 times. */
  const StateCountries: seq<string> := Repeat("Brazil", 27)

  /** The five macro-regions of Brazil. */
  const Regions: set<string> := {"North", "Northeast", "Central-West", "Southeast", "South"}

  datatype StateRow = StateRow(code: string, name: string, region: string, country: string)

  /** A frame built from four named columns: it exists only when every column
      has the same length, and row i takes element i of each column. */
  function BuildFrame(codes: seq<string>, names: seq<string>, regions: seq<string>, countries: seq<string>)
    : (r: Option<seq<StateRow>>)
    ensures r.Some? <==> |codes| == |names| && |names| == |regions| && |regions| == |countries|
    ensures r.Some? ==> |r.value| == |codes|
    ensures r.Some? ==> forall i :: 0 <= i < |codes| ==>
      r.value[i] == StateRow(codes[i], names[i], regions[i], countries[i])
  {
    if |codes| == |names| && |names| == |regions| && |regions| == |countries| then
      Some(seq(|codes|, i requires 0 <= i < |codes| => StateRow(codes[i], names[i], regions[i], countries[i])))
    else None
  }

  function StatesFrame(): Option<seq<StateRow>> {
    BuildFrame(StateCodes, StateNames, StateRegions, StateCountries)
  }

  /** The position of a two-letter code in the code column, or -1. */
  function CodeIndex(code: string): int {
    if |code| != 2 then -1
    else if code[0] == 'A' && code[1] == 'C' then 0
    else if code[0] == 'A' && code[1] == 'L' then 1
    else if code[0] == 'A' && code[1] == 'P' then 2
    else if code[0] == 'A' && code[1] == 'M' then 3
    else if code[0] == 'B' && code[1] == 'A' then 4
    else if code[0] == 'C' && code[1] == 'E' then 5
    else if code[0] == 'D' && code[1] == 'F' then 6
    else if code[0] == 'E' && code[1] == 'S' then 7
    else if code[0] == 'G' && code[1] == 'O' then 8
    else if code[0] == 'M' && code[1] == 'A' then 9
    else if code[0] == 'M' && code[1] == 'T' then 10
    else if code[0] == 'M' && code[1] == 'S' then 11
    else if code[0] == 'M' && code[1] == 'G' then 12
    else if code[0] == 'P' && code[1] == 'A' then 13
    else if code[0] == 'P' && code[1] == 'B' then 14
    else if code[0] == 'P' && code[1] == 'R' then 15
    else if code[0] == 'P' && code[1] == 'E' then 16
    else if code[0] == 'P' && code[1] == 'I' then 17
    else if code[0] == 'R' && code[1] == 'J' then 18
    else if code[0] == 'R' && code[1] == 'N' then 19
    else if code[0] == 'R' && code[1] == 'S' then 20
    else if code[0] == 'R' && code[1] == 'O' then 21
    else if code[0] == 'R' && code[1] == 'R' then 22
    else if code[0] == 'S' && code[1] == 'C' then 23
    else if code[0] == 'S' && code[1] == 'P' then 24
    else if code[0] == 'S' && code[1] == 'E' then 25
    else if code[0] == 'T' && code[1] == 'O' then 26
    else -1
  }

  lemma CodeIndexOfColumn(i: int)
    requires 0 <= i < |StateCodes|
    ensures CodeIndex(StateCodes[i]) == i
  {
    if i == 0 {
      assert CodeIndex(StateCodes[0]) == 0;
    } else if i == 1 {
      assert CodeIndex(StateCodes[1]) == 1;
    } else if i == 2 {
      assert CodeIndex(StateCodes[2]) == 2;
    } else if i == 3 {
      assert CodeIndex(StateCodes[3]) == 3;
    } else if i == 4 {
      assert CodeIndex(StateCodes[4]) == 4;
    } else if i == 5 {
      assert CodeIndex(StateCodes[5]) == 5;
    } else if i == 6 {
      assert CodeIndex(StateCodes[6]) == 6;
    } else if i == 7 {
      assert CodeIndex(StateCodes[7]) == 7;
    } else if i == 8 {
      assert CodeIndex(StateCodes[8]) == 8;
    } else if i == 9 {
      assert CodeIndex(StateCodes[9]) == 9;
    } else if i == 10 {
      assert CodeIndex(StateCodes[10]) == 10;
    } else if i == 11 {
      assert CodeIndex(StateCodes[11]) == 11;
    } else if i == 12 {
      assert CodeIndex(StateCodes[12]) == 12;
    } else if i == 13 {
      assert CodeIndex(StateCodes[13]) == 13;
    } else if i == 14 {
      assert CodeIndex(StateCodes[14]) == 14;
    } else if i == 15 {
      assert CodeIndex(StateCodes[15]) == 15;
    } else if i == 16 {
      assert CodeIndex(StateCodes[16]) == 16;
    } else if i == 17 {
      assert CodeIndex(StateCodes[17]) == 17;
    } else if i == 18 {
      assert CodeIndex(StateCodes[18]) == 18;
    } else if i == 19 {
      assert CodeIndex(StateCodes[19]) == 19;
    } else if i == 20 {
      assert CodeIndex(StateCodes[20]) == 20;
    } else if i == 21 {
      assert CodeIndex(StateCodes[21]) == 21;
    } else if i == 22 {
      assert CodeIndex(StateCodes[22]) == 22;
    } else if i == 23 {
      assert CodeIndex(StateCodes[23]) == 23;
    } else if i == 24 {
      assert CodeIndex(StateCodes[24]) == 24;
    } else if i == 25 {
      assert CodeIndex(StateCodes[25]) == 25;
    } else {
      assert CodeIndex(StateCodes[26]) == 26;
    }
  }

  predicate CodesDistinct(rows: seq<StateRow>) {
    forall i, j :: 0 <= i < j < |rows| ==> rows[i].code != rows[j].code
  }

  /** The four literal columns: 27 entries each, distinct two-letter codes,
      regions among the five macro-regions, and Brazil throughout. */
  lemma ColumnFacts()
    ensures |StateCodes| == 27 && |StateNames| == 27 && |StateRegions| == 27 && |StateCountries| == 27
    ensures forall i :: 0 <= i < 27 ==> |StateCodes[i]| == 2
    ensures forall i, j :: 0 <= i < j < 27 ==> StateCodes[i] != StateCodes[j]
    ensures forall i :: 0 <= i < 27 ==> StateRegions[i] in Regions
    ensures forall i :: 0 <= i < 27 ==> StateCountries[i] == "Brazil"
  {
    forall i, j | 0 <= i < j < 27 ensures StateCodes[i] != StateCodes[j] {
      CodeIndexOfColumn(i);
      CodeIndexOfColumn(j);
    }
  }

  /** The four columns line up, so the frame has 27 rows; the codes are
      two-letter and pairwise distinct, every region is one of the five
      macro-regions and the country is always Brazil. */
  lemma StatesFrameInvariants()
    ensures StatesFrame().Some?
    ensures var rows := StatesFrame().value;
      && |rows| == 27
      && CodesDistinct(rows)
      && (forall i :: 0 <= i < |rows| ==> |rows[i].code| == 2)
      && (forall i :: 0 <= i < |rows| ==> rows[i].region in Regions)
      && (forall i :: 0 <= i < |rows| ==> rows[i].country == "Brazil")
  {
    ColumnFacts();
  }
}
