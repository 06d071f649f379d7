/** The character-filtering core of the `App` component: the filter state
    and its two event handlers, the filter pipeline, the list of distinct
    values of one field handed to the filter controls, and the lookup behind the detail
    route `/character/:id`. */
module App {
  import opened Text
  import opened Arrays

  /** One record of the character API. */
  datatype Character = Character(id: int, name: string, species: string, status: string, image: string)

  /** The species value that switches the species filter off. */
  const AllSpecies: string := "All"

  /** The event keys `handleFilter` dispatches on. */
  const NameKey: string := "name"
  const SpecieKey: string := "specie"
  const StatusKey: string := "status"

  // ------------------------------------------------------------ filter state

  /** The status list after a status event: a value that is absent is
      appended at the end, a value that is present is taken out. */
  function Toggle(statuses: seq<string>, value: string): (r: seq<string>)
    ensures multiset(r) == if value in statuses then multiset(statuses) - multiset{value}
                           else multiset(statuses) + multiset{value}
    ensures |r| == if value in statuses then |statuses| - 1 else |statuses| + 1
  {
    if value in statuses then
      RemoveFirstMultiset(statuses, value);
      assert |RemoveFirst(statuses, value)| == |multiset(RemoveFirst(statuses, value))|;
      RemoveFirst(statuses, value)
    else
      statuses + [value]
  }

  /** The three filter fields held by the component. */
  class FilterState {
    var nameFilter: string
    var specieFilter: string
    var statusFilter: seq<string>

    /** The status list never holds a value twice. */
    ghost predicate Valid()
      reads this
    {
      NoDup(statusFilter)
    }

    /** The initial state: empty name query, every species, no status. */
    constructor ()
      ensures nameFilter == "" && specieFilter == AllSpecies && statusFilter == []
      ensures Valid()
    {
      nameFilter := "";
      specieFilter := AllSpecies;
      statusFilter := [];
    }

    /** `handleFilter({key, value})`: a name or specie event replaces its own
        field, a status event toggles the value in the status list, and any
        other key changes nothing. */
    method HandleFilter(key: string, value: string)
      modifies this
      ensures key == NameKey ==>
        nameFilter == value && specieFilter == old(specieFilter) && statusFilter == old(statusFilter)
      ensures key == SpecieKey ==>
        nameFilter == old(nameFilter) && specieFilter == value && statusFilter == old(statusFilter)
      ensures key == StatusKey ==>
        nameFilter == old(nameFilter) && specieFilter == old(specieFilter)
        && statusFilter == Toggle(old(statusFilter), value)
      ensures key != NameKey && key != SpecieKey && key != StatusKey ==>
        nameFilter == old(nameFilter) && specieFilter == old(specieFilter) && statusFilter == old(statusFilter)
      ensures old(Valid()) ==> Valid()
    {
      if key == NameKey {
        nameFilter := value;
      } else if key == SpecieKey {
        specieFilter := value;
      } else if key == StatusKey {
        if Valid() {
          ToggleKeepsNoDup(statusFilter, value);
        }
        var indexStatus := IndexOf(statusFilter, value);
        if indexStatus == -1 {
          statusFilter := statusFilter + [value];
        } else {
          SpliceAtIndexOf(statusFilter, value);
          statusFilter := Splice(statusFilter, indexStatus);
        }
      }
    }

    /** `handleReset()`: back to the initial state, whatever came before. */
    method HandleReset()
      modifies this
      ensures nameFilter == "" && specieFilter == AllSpecies && statusFilter == []
      ensures Valid()
    {
      nameFilter := "";
      specieFilter := AllSpecies;
      statusFilter := [];
    }

    /** The list the component renders for the current state. */
    function Filtered(characters: seq<Character>): (r: seq<Character>)
      reads this
      ensures IsSubsequence(r, characters)
      ensures forall c :: c in r <==> c in characters && Selected(c, nameFilter, specieFilter, statusFilter)
      ensures forall c :: multiset(r)[c] == if Selected(c, nameFilter, specieFilter, statusFilter)
                                           then multiset(characters)[c] else 0
    {
      FilteredIsSubsequence(characters, nameFilter, specieFilter, statusFilter);
      FilteredMembership(characters, nameFilter, specieFilter, statusFilter);
      FilteredCount(characters, nameFilter, specieFilter, statusFilter);
      FilteredCharacters(characters, nameFilter, specieFilter, statusFilter)
    }
  }

  // --------------------------------------------------------- filter pipeline

  /** First filter: the upper-cased name contains the upper-cased query. */
  predicate MatchesName(c: Character, nameFilter: string): (r: bool)
    ensures r <==> exists i: nat :: OccursAt(Upper(c.name), Upper(nameFilter), i)
  {
    IncludesIff(Upper(c.name), Upper(nameFilter));
    assert Includes(Upper(c.name), Upper(nameFilter))
       <==> exists i: nat :: OccursAt(Upper(c.name), Upper(nameFilter), i);
    Includes(Upper(c.name), Upper(nameFilter))
  }

  /** Second filter: species "All" lets everything through, otherwise the
      species must be equal. */
  predicate MatchesSpecie(c: Character, specieFilter: string) {
    if specieFilter == AllSpecies then true else c.species == specieFilter
  }

  /** Third filter: an empty status list lets everything through, otherwise
      the status must be in it. */
  predicate MatchesStatus(c: Character, statusFilter: seq<string>) {
    if |statusFilter| == 0 then true else c.status in statusFilter
  }

  /** The three conditions together. */
  ghost predicate Selected(c: Character, nameFilter: string, specieFilter: string, statusFilter: seq<string>) {
    (exists i: nat :: OccursAt(Upper(c.name), Upper(nameFilter), i))
    && (specieFilter == AllSpecies || c.species == specieFilter)
    && (statusFilter == [] || c.status in statusFilter)
  }

  /** `filteredCharacters`: three `filter` calls chained in this order. */
  function FilteredCharacters(characters: seq<Character>, nameFilter: string,
                              specieFilter: string, statusFilter: seq<string>): (r: seq<Character>)
    ensures |r| <= |characters|
    ensures forall i :: 0 <= i < |r| ==>
              r[i] in characters && MatchesName(r[i], nameFilter)
              && MatchesSpecie(r[i], specieFilter) && MatchesStatus(r[i], statusFilter)
  {
    Filter(Filter(Filter(characters, ByName(nameFilter)), BySpecie(specieFilter)), ByStatus(statusFilter))
  }

  /** The three callbacks handed to `filter`. */
  function ByName(nameFilter: string): Character -> bool {
    c => MatchesName(c, nameFilter)
  }

  function BySpecie(specieFilter: string): Character -> bool {
    c => MatchesSpecie(c, specieFilter)
  }

  function ByStatus(statusFilter: seq<string>): Character -> bool {
    c => MatchesStatus(c, statusFilter)
  }

  /** The conjunction of the three callbacks. */
  function ByAll(nameFilter: string, specieFilter: string, statusFilter: seq<string>): Character -> bool {
    c => MatchesName(c, nameFilter) && MatchesSpecie(c, specieFilter) && MatchesStatus(c, statusFilter)
  }

  /** The chain is one filter by the conjunction of the three predicates. */
  lemma FilteredIsOneFilter(characters: seq<Character>, nameFilter: string,
                            specieFilter: string, statusFilter: seq<string>)
    ensures FilteredCharacters(characters, nameFilter, specieFilter, statusFilter)
         == Filter(characters, ByAll(nameFilter, specieFilter, statusFilter))
  {
    var nameAndSpecie := c => MatchesName(c, nameFilter) && MatchesSpecie(c, specieFilter);
    FilterFusion(characters, ByName(nameFilter), BySpecie(specieFilter), nameAndSpecie);
    FilterFusion(characters, nameAndSpecie, ByStatus(statusFilter), ByAll(nameFilter, specieFilter, statusFilter));
  }

  /** The result keeps a subset of the characters in their original order. */
  lemma FilteredIsSubsequence(characters: seq<Character>, nameFilter: string,
                              specieFilter: string, statusFilter: seq<string>)
    ensures IsSubsequence(FilteredCharacters(characters, nameFilter, specieFilter, statusFilter), characters)
  {
    FilteredIsOneFilter(characters, nameFilter, specieFilter, statusFilter);
    FilterIsSubsequence(characters, ByAll(nameFilter, specieFilter, statusFilter));
  }

  /** A character is in the result exactly when it is in the input and
      passes all three conditions. */
  lemma FilteredMembership(characters: seq<Character>, nameFilter: string,
                           specieFilter: string, statusFilter: seq<string>)
    ensures forall c :: c in FilteredCharacters(characters, nameFilter, specieFilter, statusFilter)
                    <==> c in characters && Selected(c, nameFilter, specieFilter, statusFilter)
  {
    var p := ByAll(nameFilter, specieFilter, statusFilter);
    FilteredIsOneFilter(characters, nameFilter, specieFilter, statusFilter);
    forall c ensures c in Filter(characters, p) <==> c in characters && Selected(c, nameFilter, specieFilter, statusFilter) {
      FilterMembership(characters, p, c);
      IncludesIff(Upper(c.name), Upper(nameFilter));
    }
  }

  /** Every copy of a selected character is kept, and no copy of any other:
      a character listed twice that passes appears twice in the result. */
  lemma FilteredCount(characters: seq<Character>, nameFilter: string,
                      specieFilter: string, statusFilter: seq<string>)
    ensures forall c :: multiset(FilteredCharacters(characters, nameFilter, specieFilter, statusFilter))[c]
                     == if Selected(c, nameFilter, specieFilter, statusFilter) then multiset(characters)[c] else 0
  {
    var p := ByAll(nameFilter, specieFilter, statusFilter);
    FilteredIsOneFilter(characters, nameFilter, specieFilter, statusFilter);
    forall c ensures multiset(Filter(characters, p))[c]
                  == if Selected(c, nameFilter, specieFilter, statusFilter) then multiset(characters)[c] else 0 {
      FilterCount(characters, p, c);
      IncludesIff(Upper(c.name), Upper(nameFilter));
    }
  }

  /** With the initial state (empty query, "All", no status) the pipeline
      returns the characters unchanged. */
  lemma FilteredDefaultIsIdentity(characters: seq<Character>)
    ensures FilteredCharacters(characters, "", AllSpecies, []) == characters
  {
    var p := ByAll("", AllSpecies, []);
    UpperEmpty();
    forall c: Character ensures p(c) {
      IncludesEmpty(Upper(c.name));
    }
    FilteredIsOneFilter(characters, "", AllSpecies, []);
    FilterAll(characters, p);
  }

  /** Upper-casing the query first does not change the result: the name
      filter ignores the case of the query. */
  lemma FilteredIgnoresQueryCase(characters: seq<Character>, nameFilter: string,
                                 specieFilter: string, statusFilter: seq<string>)
    ensures FilteredCharacters(characters, Upper(nameFilter), specieFilter, statusFilter)
         == FilteredCharacters(characters, nameFilter, specieFilter, statusFilter)
  {
    UpperIdempotent(nameFilter);
    FilterExtensional(characters, ByName(Upper(nameFilter)), ByName(nameFilter));
  }

  /** The name filter ignores case: "rick" and "RICK" both select a
      character named "Rick", and "Morty" does not. */
  lemma NameFilterExample(c: Character)
    requires c.name == "Rick"
    ensures MatchesName(c, "rick") && MatchesName(c, "RICK") && !MatchesName(c, "Morty")
  {
    assert Upper("rick") == "RICK";
    assert Upper("RICK") == "RICK";
    assert Upper("Rick") == "RICK";
  }

  /** A worked example: among a living human, a dead human and a dead
      alien, species "Human" with status "Dead" leaves only the dead human,
      whatever their names. */
  lemma FilteredExampleHumanDead(rick: Character, morty: Character, bird: Character)
    requires rick.species == "Human" && rick.status == "Alive"
    requires morty.species == "Human" && morty.status == "Dead"
    requires bird.species == "Alien" && bird.status == "Dead"
    ensures FilteredCharacters([rick, morty, bird], "", "Human", ["Dead"]) == [morty]
  {
    var all := ByAll("", "Human", ["Dead"]);
    UpperEmpty();
    IncludesEmpty(Upper(morty.name));
    assert all(morty);
    assert !all(rick) by {
      assert rick.status !in ["Dead"];
    }
    assert !all(bird) by {
      assert bird.species != "Human";
    }
    FilteredIsOneFilter([rick, morty, bird], "", "Human", ["Dead"]);
    assert Filter([rick, morty, bird], all) == [morty] by {
      assert [rick, morty, bird][1..] == [morty, bird];
      assert [morty, bird][1..] == [bird];
      assert [bird][1..] == [];
      assert Filter([bird], all) == [];
      assert Filter([morty, bird], all) == [morty];
    }
  }

  // --------------------------------------------------------- status toggling

  /** Toggling keeps the status list duplicate-free, and it flips exactly
      the membership of the toggled value. */
  lemma ToggleKeepsNoDup(statuses: seq<string>, value: string)
    requires NoDup(statuses)
    ensures NoDup(Toggle(statuses, value))
    ensures forall s :: s in Toggle(statuses, value) <==> (s in statuses <==> s != value)
  {
    if value in statuses {
      RemoveFirstNoDup(statuses, value);
    } else {
      AppendAbsentNoDup(statuses, value);
    }
  }

  /** An absent value is appended at the end; a present value loses
      exactly its first occurrence and the others keep their order. */
  lemma ToggleEffect(statuses: seq<string>, value: string)
    ensures value !in statuses ==> Toggle(statuses, value) == statuses + [value]
    ensures value in statuses ==>
              var i := IndexOf(statuses, value);
              Toggle(statuses, value) == statuses[..i] + statuses[i + 1..]
              && multiset(Toggle(statuses, value)) == multiset(statuses) - multiset{value}
  {
    if value in statuses {
      SpliceAtIndexOf(statuses, value);
      RemoveFirstMultiset(statuses, value);
    }
  }

  /** Toggling an absent value twice gives back the original list. */
  lemma ToggleTwiceAbsent(statuses: seq<string>, value: string)
    requires value !in statuses
    ensures Toggle(Toggle(statuses, value), value) == statuses
  {
    var t := statuses + [value];
    assert value in t;
    RemoveFirstAppended(statuses, value);
  }

  /** Removing the first occurrence of a value appended to a list that lacks
      it gives the list back. */
  lemma {:induction false} RemoveFirstAppended(s: seq<string>, x: string)
    requires x !in s
    ensures RemoveFirst(s + [x], x) == s
  {
    if |s| > 0 {
      assert (s + [x])[1..] == s[1..] + [x];
      RemoveFirstAppended(s[1..], x);
    }
  }

  /** Toggling a present value twice keeps the same members but moves the
      value to the end of the list. */
  lemma ToggleTwicePresent(statuses: seq<string>, value: string)
    requires NoDup(statuses) && value in statuses
    ensures Toggle(Toggle(statuses, value), value) == RemoveFirst(statuses, value) + [value]
    ensures forall s :: s in Toggle(Toggle(statuses, value), value) <==> s in statuses
  {
    RemoveFirstNoDup(statuses, value);
  }

  // ------------------------------------------------------------ status values

  /** The string-valued fields `getStatus` may be asked for. */
  datatype Key = NameField | SpeciesField | StatusField | ImageField

  /** `character[key]`. */
  function FieldOf(c: Character, key: Key): string {
    match key
    case NameField => c.name
    case SpeciesField => c.species
    case StatusField => c.status
    case ImageField => c.image
  }

  /** `getStatus(key)`: the distinct values of one field, first seen first. */
  function GetStatus(characters: seq<Character>, key: Key): (r: seq<string>)
    ensures NoDup(r)
    ensures forall v :: v in r <==> exists i :: 0 <= i < |characters| && FieldOf(characters[i], key) == v
  {
    var values := seq(|characters|, i requires 0 <= i < |characters| => FieldOf(characters[i], key));
    assert forall i :: 0 <= i < |characters| ==> values[i] == FieldOf(characters[i], key);
    Distinct(values)
  }

  /** The values appear in the order in which their first character does. */
  lemma GetStatusFirstSeenOrder(characters: seq<Character>, key: Key)
    ensures var values := seq(|characters|, i requires 0 <= i < |characters| => FieldOf(characters[i], key));
            var r := GetStatus(characters, key);
            forall i, j :: 0 <= i < j < |r| ==> IndexOf(values, r[i]) < IndexOf(values, r[j])
  {
    var values := seq(|characters|, i requires 0 <= i < |characters| => FieldOf(characters[i], key));
    DistinctOrder(values);
  }

  // ------------------------------------------------------------ detail route

  /** What the route `/character/:id` renders. */
  datatype DetailView = CharacterDetail(character: Character) | NotFound

  /** `renderCharacterDetail`: the first character whose id equals the
      parsed route id; a route id that does not parse (None) equals no id. */
  function RenderCharacterDetail(characters: seq<Character>, routeId: Option<int>): (v: DetailView)
    ensures v.CharacterDetail? ==>
      exists i :: 0 <= i < |characters| && characters[i] == v.character
        && routeId == Some(characters[i].id)
        && forall j :: 0 <= j < i ==> routeId != Some(characters[j].id)
    ensures v.NotFound? <==> forall i :: 0 <= i < |characters| ==> routeId != Some(characters[i].id)
  {
    match Find(characters, (c: Character) => routeId == Some(c.id))
    case Some(found) => CharacterDetail(found)
    case None => NotFound
  }

  /** An id carried by exactly one character resolves to that character. */
  lemma DetailFindsUnique(characters: seq<Character>, id: int, k: nat)
    requires k < |characters| && characters[k].id == id
    requires forall i :: 0 <= i < |characters| && i != k ==> characters[i].id != id
    ensures RenderCharacterDetail(characters, Some(id)) == CharacterDetail(characters[k])
  {
  }

  /** Before the characters arrive, every route id is not found. */
  lemma DetailBeforeLoad(routeId: Option<int>)
    ensures RenderCharacterDetail([], routeId) == NotFound
  {
  }
}
