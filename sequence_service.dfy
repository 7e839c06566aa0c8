/** SequenceService: the administrative side of the SequenceCounters table
    (prefix -> CurrentValue, keyed by prefix). */
module SequenceService {
  import opened Results
  import opened Text
  import opened Decimal
  import opened Allocator
  import opened Store
  import opened Listing

  datatype CreateSequenceDto = CreateSequenceDto(prefix: string, initialValue: int32)

  /** One row of the listing: a prefix and its current value. */
  datatype SequenceDto = SequenceDto(prefix: string, value: int32)

  const EmptyPrefix: string := "Prefix cannot be empty."

  function AlreadyExists(prefix: string): string {
    "Sequence for prefix '" + prefix + "' already exists."
  }

  function NotFound(prefix: string): string {
    "Sequence with prefix " + prefix + " not found."
  }

  /** CreateSequenceAsync, with text compared ordinally. The existence check
      compares the prefix as supplied, while the row is stored under its
      upper-cased form; when only the upper-cased form is already a key, the
      check passes and the save is refused by the primary key (no try/catch: the exception reaches the
      caller). The counters are only changed by a success, which adds exactly
      one counter. */
  function CreateSequenceStep(s: State, dto: CreateSequenceDto): (t: Transition<Response<Result>>)
    ensures IsBlank(dto.prefix) ==> t == Transition(s, Returned(Failure(EmptyPrefix)))
    ensures !IsBlank(dto.prefix) && dto.prefix in s.counters ==>
      t == Transition(s, Returned(Failure(AlreadyExists(dto.prefix))))
    ensures !IsBlank(dto.prefix) && dto.prefix !in s.counters && ToUpper(dto.prefix) in s.counters ==>
      t == Transition(s, Raised(DuplicateKeyViolation))
    ensures t.result == Returned(Success()) <==>
      !IsBlank(dto.prefix) && dto.prefix !in s.counters && ToUpper(dto.prefix) !in s.counters
    ensures t.result == Returned(Success()) ==>
      && t.after == s.(counters := s.counters[ToUpper(dto.prefix) := dto.initialValue])
      && t.after.counters.Keys == s.counters.Keys + {ToUpper(dto.prefix)}
      && ToUpper(dto.prefix) !in s.counters
    ensures t.result != Returned(Success()) ==> t.after == s
  {
    if IsBlank(dto.prefix) then Transition(s, Returned(Failure(EmptyPrefix)))
    else if dto.prefix in s.counters then Transition(s, Returned(Failure(AlreadyExists(dto.prefix))))
    else
      var key := ToUpper(dto.prefix);
      if key in s.counters then Transition(s, Raised(DuplicateKeyViolation))
      else Transition(s.(counters := s.counters[key := dto.initialValue]), Returned(Success()))
  }

  /** DeleteSequenceAsync: looks the counter up under the upper-cased prefix;
      removes exactly that counter, or fails and changes nothing. */
  function DeleteSequenceStep(s: State, prefix: string): (t: Transition<Result>)
    ensures t.result.IsSuccess() <==> ToUpper(prefix) in s.counters
    ensures t.result.IsSuccess() ==> t.after == s.(counters := s.counters - {ToUpper(prefix)})
    ensures t.result.IsFailure() ==> t == Transition(s, Failure(NotFound(prefix)))
  {
    var key := ToUpper(prefix);
    if key !in s.counters then Transition(s, Failure(NotFound(prefix)))
    else Transition(s.(counters := s.counters - {key}), Success())
  }

  /** The listing rows for `keys`, in that order. */
  function Rows(c: Counters, keys: seq<string>): (r: seq<SequenceDto>)
    requires forall i :: 0 <= i < |keys| ==> keys[i] in c
    ensures |r| == |keys|
    ensures forall i :: 0 <= i < |r| ==> r[i] == SequenceDto(keys[i], c[keys[i]])
  {
    seq(|keys|, i requires 0 <= i < |keys| => SequenceDto(keys[i], c[keys[i]]))
  }

  /** The prefix column of a listing. */
  function Prefixes(rows: seq<SequenceDto>): (ps: seq<string>)
    ensures |ps| == |rows| && forall i :: 0 <= i < |rows| ==> ps[i] == rows[i].prefix
  {
    seq(|rows|, i requires 0 <= i < |rows| => rows[i].prefix)
  }

  /** GetAllSequencesAsync: one row per counter, ordered by prefix. */
  ghost function AllSequences(c: Counters): (r: seq<SequenceDto>)
    ensures |r| == |c.Keys|
    ensures forall i :: 0 <= i < |r| ==> r[i].prefix in c && r[i].value == c[r[i].prefix]
    ensures forall p :: p in c ==> p in Prefixes(r)
    ensures forall i, j :: 0 <= i < j < |r| ==> r[i].prefix != r[j].prefix && OrdinalLe(r[i].prefix, r[j].prefix)
  {
    var keys := SortByKey(c.Keys, p => p);
    var r := Rows(c, keys);
    assert Prefixes(r) == keys;
    r
  }

  method CreateSequence(db: Database, dto: CreateSequenceDto) returns (r: Response<Result>)
    modifies db
    ensures var t := CreateSequenceStep(old(db.Snapshot()), dto);
      db.Snapshot() == t.after && r == t.result
  {
    if IsBlank(dto.prefix) {
      return Returned(Failure(EmptyPrefix));
    }
    var exists_ := dto.prefix in db.counters;
    if exists_ {
      return Returned(Failure(AlreadyExists(dto.prefix)));
    }
    var key := ToUpper(dto.prefix);
    // SaveChanges: the primary key on Prefix refuses a second row for `key`.
    if key in db.counters {
      return Raised(DuplicateKeyViolation);
    }
    db.counters := db.counters[key := dto.initialValue];
    r := Returned(Success());
  }

  method DeleteSequence(db: Database, prefix: string) returns (r: Result)
    modifies db
    ensures var t := DeleteSequenceStep(old(db.Snapshot()), prefix);
      db.Snapshot() == t.after && r == t.result
  {
    var key := ToUpper(prefix);
    if key !in db.counters {
      return Failure(NotFound(prefix));
    }
    db.counters := db.counters - {key};
    r := Success();
  }

  /** A counter created with an initial value v makes the next allocation
      under that prefix issue prefix + (v+1): creating "T" at 50 makes the
      next index "T51". */
  lemma CreatedCounterFeedsAllocator(s: State)
    requires "T" !in s.counters
    ensures var t := CreateSequenceStep(s, CreateSequenceDto("T", 50));
      t.result == Returned(Success()) && Allocate(t.after.counters, "T").index == "T51"
  {
    var t := CreateSequenceStep(s, CreateSequenceDto("T", 50));
    assert ToUpper("T") == "T";
    assert !IsBlank("T") by { assert !IsWhiteSpace("T"[0]); }
    assert FormatInt(51) == "51" by {
      assert NatDigits(51) == NatDigits(5) + [DigitChar(1)];
    }
  }

  /** Under ordinal comparison, the duplicate check sees the prefix as
      supplied but the key is stored upper-cased: creating a lower-case prefix
      twice passes the check the second time and is refused only by the
      primary key, as an exception. (A case-insensitive database collation
      would make the check itself refuse the second call.) */
  lemma LowerCaseDuplicateRaises(s: State, v: int32, w: int32)
    requires "x" !in s.counters && "X" !in s.counters
    ensures var first := CreateSequenceStep(s, CreateSequenceDto("x", v));
      && first.result == Returned(Success())
      && CreateSequenceStep(first.after, CreateSequenceDto("x", w)) == Transition(first.after, Raised(DuplicateKeyViolation))
  {
    assert ToUpper("x") == "X";
    assert !IsBlank("x") by { assert !IsWhiteSpace("x"[0]); }
  }

  /** Deleting a counter takes any spelling of its prefix: a prefix created
      as supplied can be deleted again, which gives the counters back. */
  lemma CreateThenDeleteRestores(s: State, dto: CreateSequenceDto)
    requires CreateSequenceStep(s, dto).result == Returned(Success())
    ensures var t := CreateSequenceStep(s, dto);
      DeleteSequenceStep(t.after, dto.prefix) == Transition(s, Success())
  {
    var t := CreateSequenceStep(s, dto);
    assert t.after.counters - {ToUpper(dto.prefix)} == s.counters;
  }
}
