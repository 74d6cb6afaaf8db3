/**
 * The store handle's referential-integrity switch and the scoped guard that
 * turns it off (src/libs/database/include/database/Db.hpp). Only the
 * foreign-key flag is modelled; the handle's mutex and connection pool are
 * not part of this model.
 */
module Database {

  /** The two statements the guard sends through `executeSql`. */
  datatype Pragma = ForeignKeysOff | ForeignKeysOn

  class Db {
    /** Whether the store enforces foreign-key constraints. */
    var foreignKeys: bool

    /** A handle on a store whose enforcement is currently `foreignKeys`. */
    constructor (foreignKeys: bool)
      ensures this.foreignKeys == foreignKeys
    {
      this.foreignKeys := foreignKeys;
    }

    /** `executeSql(pragma)`: enforcement is on after `foreign_keys=ON` and off after `foreign_keys=OFF`. */
    method ExecuteSql(pragma: Pragma)
      modifies this`foreignKeys
      ensures foreignKeys <==> pragma == ForeignKeysOn
    {
      foreignKeys := pragma == ForeignKeysOn;
    }
  }

  /** The guard: enforcement is off from its construction to its destruction. */
  class ScopedNoForeignKeys {
    const db: Db

    /** Turns enforcement off on `db` and touches nothing else. */
    constructor (db: Db)
      modifies db`foreignKeys
      ensures this.db == db
      ensures !db.foreignKeys
    {
      this.db := db;
      db.ExecuteSql(ForeignKeysOff);
    }

    /** The destructor: turns enforcement on, whatever it was before the guard. */
    method Destroy()
      modifies db`foreignKeys
      ensures db.foreignKeys
    {
      db.ExecuteSql(ForeignKeysOn);
    }
  }

  /**
   * One guarded scope: enforcement is off inside it and on after it, also
   * when it was off before the guard was taken. Because the destructor sets
   * the flag rather than restoring it, this holds on every exit path.
   */
  method GuardedScope(db: Db) returns (inside: bool)
    modifies db`foreignKeys
    ensures !inside
    ensures db.foreignKeys
  {
    var guard := new ScopedNoForeignKeys(db);
    inside := db.foreignKeys;
    guard.Destroy();
  }

  /**
   * Nested guards: the inner guard's destructor turns enforcement back on
   * while the outer guard is still alive.
   */
  method NestedScopes(db: Db) returns (betweenDestructors: bool)
    modifies db`foreignKeys
    ensures betweenDestructors
    ensures db.foreignKeys
  {
    var outer := new ScopedNoForeignKeys(db);
    var inner := new ScopedNoForeignKeys(db);
    inner.Destroy();
    betweenDestructors := db.foreignKeys;
    outer.Destroy();
  }
}
