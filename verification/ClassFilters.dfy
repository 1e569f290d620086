/** Installing and removing the driver in the UpperFilters lists of device classes (libusb/src/registry.c). */
module ClassFilters {
  import opened Bytes
  import opened MultiString
  import opened JoinedString

  const MAX_PATH := 260

  /** A registry value: REG_SZ or REG_MULTI_SZ data. */
  datatype Data = Text(chars: seq<char>) | Multi(chars: seq<char>)

  function Padded(d: seq<char>): (b: seq<char>)
    requires |d| <= MAX_PATH
    ensures |b| == MAX_PATH
  {
    d + seq(MAX_PATH - |d|, _ => NUL)
  }

  /** The buffer that `usb_registry_get_mz_value` fills. */
  function Read(v: Option<Data>): (b: seq<char>)
    requires v.Some? ==> |v.value.chars| <= MAX_PATH
    ensures |b| == MAX_PATH
  {
    match v
    case None => Padded([])
    case Some(Text(d)) => Split(Padded(d))
    case Some(Multi(d)) => Padded(d)
  }

  /** The value fits the buffer, with the NULs that end it. */
  predicate Fits(v: Option<Data>) {
    v.Some? ==> |v.value.chars| <= MAX_PATH && EndOf(Padded(v.value.chars), 0) < MAX_PATH && Terminated(Read(v), 0)
  }

  /** The filters that a value that fits stands for. */
  function FiltersOf(v: Option<Data>): seq<string> {
    if v == None || !Fits(v) then [] else Entries(Read(v), 0)
  }

  function ValueIn(uppers: map<string, Data>, key: string): Option<Data> {
    if key in uppers then Some(uppers[key]) else None
  }

  function FiltersIn(uppers: map<string, Data>, key: string): seq<string> {
    FiltersOf(ValueIn(uppers, key))
  }

  lemma NothingRead()
    ensures Terminated(Read(None), 0) && Entries(Read(None), 0) == []
  {}

  /** The driver is one of the filters, whatever the case of the letters. */
  predicate Has(l: seq<string>, driver: string) {
    FirstSame(l, 0, driver, true) < |l|
  }

  function Installed(l: seq<string>, driver: string): seq<string> {
    if Has(l, driver) then l else l + [driver]
  }

  function Uninstalled(l: seq<string>, driver: string): seq<string> {
    Others(l, driver, true)
  }

  function Changed(l: seq<string>, driver: string, install: bool): seq<string> {
    if install then Installed(l, driver) else Uninstalled(l, driver)
  }

  /** Every key's filters have been changed, the value only where that makes a difference; other keys keep theirs. */
  ghost predicate Treated(before: map<string, Data>, after: map<string, Data>, keys: seq<string>, driver: string,
                          install: bool) {
    && (forall k :: k in keys ==>
          Fits(ValueIn(after, k)) && FiltersIn(after, k) == Changed(FiltersIn(before, k), driver, install))
    && (forall k :: k !in keys || Has(FiltersIn(before, k), driver) == install ==>
          ValueIn(after, k) == ValueIn(before, k))
  }

  ghost predicate SomeDiffers(uppers: map<string, Data>, keys: seq<string>, driver: string, install: bool) {
    exists k :: k in keys && Has(FiltersIn(uppers, k), driver) != install
  }

  lemma ChangedTwice(l: seq<string>, driver: string, install: bool)
    ensures var m := Changed(l, driver, install);
            Has(m, driver) == install && Changed(m, driver, install) == m
    ensures Has(l, driver) == install ==> Changed(l, driver, install) == l
  {
    UninstallUndoesInstall(l, driver);
    UninstallUndoesInstall(Uninstalled(l, driver), driver);
    UninstalledIs(Uninstalled(l, driver), driver);
    UninstalledIs(l, driver);
  }

  lemma TreatedNext(before: map<string, Data>, middle: map<string, Data>, after: map<string, Data>,
                    keys: seq<string>, key: string, driver: string, install: bool)
    requires Treated(before, middle, keys, driver, install) && Treated(middle, after, [key], driver, install)
    ensures Treated(before, after, keys + [key], driver, install)
    ensures SomeDiffers(before, keys + [key], driver, install)
            <==> SomeDiffers(before, keys, driver, install) || SomeDiffers(middle, [key], driver, install)
  {
    ChangedTwice(FiltersIn(before, key), driver, install);
    hide Has, Changed, FiltersOf, Fits, ValueIn;
    assert key in [key];
    assert key !in keys ==> ValueIn(middle, key) == ValueIn(before, key);
    forall k | k in keys + [key]
      ensures Fits(ValueIn(after, k)) && FiltersIn(after, k) == Changed(FiltersIn(before, k), driver, install)
    {
      assert k != key ==> k !in [key] && ValueIn(after, k) == ValueIn(middle, k);
    }
    forall k | k !in keys + [key] || Has(FiltersIn(before, k), driver) == install
      ensures ValueIn(after, k) == ValueIn(before, k)
    {
      assert ValueIn(middle, k) == ValueIn(before, k);
    }
    if SomeDiffers(before, keys + [key], driver, install) {
      var k :| k in keys + [key] && Has(FiltersIn(before, k), driver) != install;
      assert k in keys || k in [key];
    }
    if SomeDiffers(before, keys, driver, install) {
      var k :| k in keys && Has(FiltersIn(before, k), driver) != install;
      assert k in keys + [key];
    }
    if SomeDiffers(middle, [key], driver, install) {
      assert key in keys + [key];
    }
  }

  lemma HasIs(l: seq<string>, driver: string)
    ensures Has(l, driver) <==> exists s :: s in l && Same(s, driver, true)
  {
    hide Same;
    var i := FirstSame(l, 0, driver, true);
    if i < |l| {
      assert l[i] in l;
    }
  }

  /** Installing twice is installing once; removing leaves every other filter in order, the same whether the driver was
      installed or not, and gives back the list if the driver was not in it before. */
  lemma UninstallUndoesInstall(l: seq<string>, driver: string)
    ensures Has(Installed(l, driver), driver) && Installed(Installed(l, driver), driver) == Installed(l, driver)
    ensures Uninstalled(Installed(l, driver), driver) == Uninstalled(l, driver)
    ensures !Has(l, driver) ==> Uninstalled(Installed(l, driver), driver) == l
    ensures !Has(Uninstalled(l, driver), driver)
  {
    var added := l + [driver];
    assert driver in added && Same(driver, driver, true);
    assert Others([driver], driver, true) == [];
    OthersSplit(l, [driver], driver, true);
    OthersAre(l, driver, true);
    hide Same, Has;
    HasIs(l, driver);
    HasIs(added, driver);
    HasIs(Uninstalled(l, driver), driver);
    if !Has(l, driver) {
      OthersAll(l, driver, true);
    }
  }

  /** A list of strings without commas, written as text, is read as that list. */
  lemma TextIsRead(l: seq<string>)
    requires Proper(l) && NoComma(l) && l != [] && |Encode(l)| <= MAX_PATH
    ensures |Join(l, ',')| + 2 == |Encode(l)| && Fits(Some(Text(Join(l, ','))))
    ensures FiltersOf(Some(Text(Join(l, ',')))) == l
  {
    var n, b := |Encode(l)|, Padded(Encode(l));
    assert b[0..n] == Encode(l);
    EntriesUndoesEncode(b, 0, l);
    SplitUndoesJoin(b);
    JoinedText(b, 0, n, l, ',');
    var text, j := Join(l, ','), Joined(b, n, ',');
    assert j[0..n] == text + [NUL, NUL] && |text| + 2 == n;
    assert j == Padded(text) by {
      forall i | 0 <= i < MAX_PATH ensures j[i] == Padded(text)[i] {
        assert i < n ==> j[i] == j[0..n][i];
      }
    }
    EndIsEarly(j, |text|);
  }

  /** A list written as REG_MULTI_SZ is read as that list. */
  lemma MultiIsRead(l: seq<string>)
    requires Proper(l) && |Encode(l)| <= MAX_PATH
    ensures Fits(Some(Multi(Encode(l)))) && FiltersOf(Some(Multi(Encode(l)))) == l
    ensures |Encode(l)| > 2 <==> l != []
  {
    var n, b := |Encode(l)|, Padded(Encode(l));
    assert b[0..n] == Encode(l);
    EntriesUndoesEncode(b, 0, l);
    EncodeShape(l);
    EndIsEarly(b, n - 1);
  }

  lemma NoFilters()
    ensures Fits(None) && FiltersOf(None) == []
  {}

  lemma UninstalledIs(l: seq<string>, driver: string)
    ensures Uninstalled(l, driver) == Others(l, driver, true) && (!Has(l, driver) ==> Uninstalled(l, driver) == l)
  {
    if !Has(l, driver) {
      OthersAll(l, driver, true);
    }
  }

  lemma FoundIs(b: seq<char>, l: seq<string>, driver: string, found: Option<nat>)
    requires Located(b, 0, l, FirstSame(l, 0, driver, true), found)
    ensures found.Some? <==> Has(l, driver)
  {}

  lemma FiltersAreProper(v: Option<Data>)
    requires Fits(v)
    ensures Holds(Read(v), 0, FiltersOf(v)) && Proper(FiltersOf(v)) && Terminated(Read(v), 0)
    ensures Entries(Read(v), 0) == FiltersOf(v)
  {
    NothingRead();
    EncodeUndoesEntries(Read(v), 0);
  }

  lemma {:induction false} EndIsEarlyFrom(b: seq<char>, p: nat, i: nat)
    requires p <= i < |b| && b[i] == NUL
    ensures EndOf(b, p) <= i
    decreases i - p
  {
    if p < i {
      EndIsEarlyFrom(b, p + 1, i);
    }
  }

  lemma EndIsEarly(b: seq<char>, i: nat)
    requires i < |b| && b[i] == NUL
    ensures EndOf(b, 0) < |b|
  {
    EndIsEarlyFrom(b, 0, i);
  }

  /** The buffer has room for the driver if it is to be added to the list. */
  predicate Ready(uppers: map<string, Data>, key: string, driver: string) {
    && Fits(ValueIn(uppers, key))
    && (Has(FiltersIn(uppers, key), driver) || |Encode(FiltersIn(uppers, key))| + |driver| + 1 <= MAX_PATH)
  }

  /** The UpperFilters values of the class keys. */
  class Registry {
    var uppers: map<string, Data>

    constructor (uppers: map<string, Data>)
      ensures this.uppers == uppers
    {
      this.uppers := uppers;
    }

    /** `usb_registry_get_mz_value`. */
    method GetMzValue(key: string, buf: array<char>) returns (ok: bool)
      requires buf.Length == MAX_PATH && Fits(ValueIn(uppers, key))
      modifies buf
      ensures ok == (key in uppers) && buf[..] == Read(ValueIn(uppers, key))
    {
      forall i | 0 <= i < MAX_PATH {
        buf[i] := NUL;
      }
      ok := key in uppers;
      if ok {
        var data := uppers[key];
        Memcpy(buf, 0, data.chars);
        assert buf[..] == Padded(data.chars);
        if data.Text? {
          SplitCommas(buf);
        }
      }
    }

    /** `usb_registry_set_mz_value`: an empty list deletes the value, which fails if there is none. */
    method SetMzValue(key: string, buf: array<char>, size: nat) returns (ok: bool)
      requires size <= buf.Length
      modifies this
      ensures ok == (size > 2 || key in old(uppers))
      ensures uppers == if size > 2 then old(uppers)[key := Multi(buf[..size])] else old(uppers) - {key}
    {
      ok := size > 2 || key in uppers;
      uppers := if size > 2 then uppers[key := Multi(buf[..size])] else uppers - {key};
    }

    /** Writes the list in the buffer back to the value. */
    method WriteBack(key: string, buf: array<char>) returns (ok: bool)
      requires buf.Length == MAX_PATH && Terminated(buf[..], 0)
      modifies this
      ensures Fits(ValueIn(uppers, key)) && FiltersIn(uppers, key) == Entries(buf[..], 0)
      ensures ok == (Entries(buf[..], 0) != [] || key in old(uppers))
      ensures forall k :: k != key ==> ValueIn(uppers, k) == ValueIn(old(uppers), k)
    {
      ghost var l := Entries(buf[..], 0);
      EncodeUndoesEntries(buf[..], 0);
      hide Read, Entries, Terminated, Encode, Holds;
      var size := Size(buf);
      ok := SetMzValue(key, buf, size);
      MultiIsRead(l);
      hide FiltersOf, Fits;
      NoFilters();
    }

    /** One turn of `usb_registry_insert_class_filter`. */
    method InsertOne(key: string, driver: string) returns (modified: bool)
      requires Entry(driver) && Ready(uppers, key, driver)
      modifies this
      ensures Treated(old(uppers), uppers, [key], driver, true)
      ensures modified == SomeDiffers(old(uppers), [key], driver, true)
    {
      ghost var l := FiltersIn(uppers, key);
      FiltersAreProper(ValueIn(uppers, key));
      NoFilters();
      TreatedOne(uppers, key, driver, true);
      hide *;
      var buf := new char[MAX_PATH];
      var ok := GetMzValue(key, buf);
      if ok {
        var found := Find(buf, 0, driver, true, l);
        FoundIs(buf[..], l, driver, found);
        if found.Some? {
          return false;
        }
      }
      Insert(buf, driver);
      modified := WriteBack(key, buf);
    }

    /** One turn of `usb_registry_remove_class_filter`. */
    method RemoveOne(key: string, driver: string) returns (modified: bool)
      requires Entry(driver) && Fits(ValueIn(uppers, key))
      modifies this
      ensures Treated(old(uppers), uppers, [key], driver, false)
      ensures modified == SomeDiffers(old(uppers), [key], driver, false)
    {
      ghost var l := FiltersIn(uppers, key);
      FiltersAreProper(ValueIn(uppers, key));
      NoFilters();
      TreatedOne(uppers, key, driver, false);
      hide *;
      modified := false;
      var buf := new char[MAX_PATH];
      var ok := GetMzValue(key, buf);
      if ok {
        var found := Find(buf, 0, driver, true, l);
        FoundIs(buf[..], l, driver, found);
        if found.Some? {
          modified := true;
          Remove(buf, driver, true);
          var written := WriteBack(key, buf);
        }
      }
    }

    /** `usb_registry_insert_class_filter`, over the list of class keys. */
    method InsertClassFilter(keys: seq<string>, driver: string) returns (modified: bool)
      requires Entry(driver) && forall k :: k in keys ==> Ready(uppers, k, driver)
      modifies this
      ensures Treated(old(uppers), uppers, keys, driver, true)
      ensures modified == SomeDiffers(old(uppers), keys, driver, true)
    {
      TreatedNone(uppers, driver, true);
      hide *;
      modified := false;
      for i := 0 to |keys|
        invariant Treated(old(uppers), uppers, keys[..i], driver, true)
        invariant modified == SomeDiffers(old(uppers), keys[..i], driver, true)
      {
        ghost var middle := uppers;
        StillReady(old(uppers), uppers, keys[..i], keys[i], driver);
        var changed := InsertOne(keys[i], driver);
        TreatedNext(old(uppers), middle, uppers, keys[..i], keys[i], driver, true);
        assert keys[..i + 1] == keys[..i] + [keys[i]];
        modified := modified || changed;
      }
      assert keys[..|keys|] == keys;
    }

    /** `usb_registry_remove_class_filter`, over the list of class keys. */
    method RemoveClassFilter(keys: seq<string>, driver: string) returns (modified: bool)
      requires Entry(driver) && forall k :: k in keys ==> Fits(ValueIn(uppers, k))
      modifies this
      ensures Treated(old(uppers), uppers, keys, driver, false)
      ensures modified == SomeDiffers(old(uppers), keys, driver, false)
    {
      TreatedNone(uppers, driver, false);
      hide *;
      modified := false;
      for i := 0 to |keys|
        invariant Treated(old(uppers), uppers, keys[..i], driver, false)
        invariant modified == SomeDiffers(old(uppers), keys[..i], driver, false)
      {
        ghost var middle := uppers;
        StillFits(old(uppers), uppers, keys[..i], keys[i], driver, false);
        var changed := RemoveOne(keys[i], driver);
        TreatedNext(old(uppers), middle, uppers, keys[..i], keys[i], driver, false);
        assert keys[..i + 1] == keys[..i] + [keys[i]];
        modified := modified || changed;
      }
      assert keys[..|keys|] == keys;
    }
  }

  lemma StillReady(before: map<string, Data>, after: map<string, Data>, keys: seq<string>, key: string, driver: string)
    requires Treated(before, after, keys, driver, true) && Ready(before, key, driver)
    ensures Ready(after, key, driver)
  {
    ChangedTwice(FiltersIn(before, key), driver, true);
    hide Has, Changed, FiltersOf, Fits, Encode, ValueIn;
  }

  lemma StillFits(before: map<string, Data>, after: map<string, Data>, keys: seq<string>, key: string, driver: string,
                  install: bool)
    requires Treated(before, after, keys, driver, install) && Fits(ValueIn(before, key))
    ensures Fits(ValueIn(after, key))
  {
    hide Has, Changed, FiltersOf, Fits, ValueIn;
  }

  lemma TreatedNone(uppers: map<string, Data>, driver: string, install: bool)
    ensures Treated(uppers, uppers, [], driver, install) && !SomeDiffers(uppers, [], driver, install)
  {}

  /** When one key has been treated. */
  lemma TreatedOne(before: map<string, Data>, key: string, driver: string, install: bool)
    requires Fits(ValueIn(before, key))
    ensures SomeDiffers(before, [key], driver, install) <==> Has(FiltersIn(before, key), driver) != install
    ensures Has(FiltersIn(before, key), driver) == install ==> Treated(before, before, [key], driver, install)
    ensures !Has([], driver) && (key !in before ==> FiltersIn(before, key) == [])
    ensures forall after: map<string, Data> ::
              && Has(FiltersIn(before, key), driver) != install
              && Fits(ValueIn(after, key))
              && FiltersIn(after, key) == (if install then FiltersIn(before, key) + [driver]
                                           else Others(FiltersIn(before, key), driver, true))
              && (forall k :: k != key ==> ValueIn(after, k) == ValueIn(before, k))
              ==> Treated(before, after, [key], driver, install)
  {
    ChangedTwice(FiltersIn(before, key), driver, install);
    assert key in [key];
    hide FiltersOf, Fits;
    NoFilters();
  }

  /** Installing over any list of keys a second time writes nothing. */
  lemma InstallIsIdempotent(before: map<string, Data>, once: map<string, Data>, twice: map<string, Data>,
                            keys: seq<string>, driver: string)
    requires Treated(before, once, keys, driver, true) && Treated(once, twice, keys, driver, true)
    ensures forall k :: ValueIn(twice, k) == ValueIn(once, k)
    ensures !SomeDiffers(once, keys, driver, true)
  {
    forall k | k in keys ensures Has(FiltersIn(once, k), driver) {
      ChangedTwice(FiltersIn(before, k), driver, true);
    }
    hide Has, Changed, FiltersOf, Fits, ValueIn;
  }

  /** Installing and then removing over the same keys leaves every list without the driver and otherwise as it was: a
      list that did not have it is the same again, where a missing value counts as an empty list. */
  lemma UninstallAfterInstall(before: map<string, Data>, installed: map<string, Data>, after: map<string, Data>,
                              keys: seq<string>, driver: string)
    requires Treated(before, installed, keys, driver, true) && Treated(installed, after, keys, driver, false)
    ensures forall k :: FiltersIn(after, k)
                        == if k in keys then Uninstalled(FiltersIn(before, k), driver) else FiltersIn(before, k)
    ensures forall k :: !Has(FiltersIn(before, k), driver) ==> FiltersIn(after, k) == FiltersIn(before, k)
    ensures forall k :: k !in keys ==> ValueIn(after, k) == ValueIn(before, k)
  {
    forall k
      ensures Uninstalled(Installed(FiltersIn(before, k), driver), driver) == Uninstalled(FiltersIn(before, k), driver)
      ensures !Has(FiltersIn(before, k), driver) ==> Uninstalled(FiltersIn(before, k), driver) == FiltersIn(before, k)
    {
      UninstallUndoesInstall(FiltersIn(before, k), driver);
    }
    hide Has, Installed, Uninstalled, FiltersOf, Fits, ValueIn;
  }
}
