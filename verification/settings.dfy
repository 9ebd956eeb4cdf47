/**
 * The settings dialog's view model: typed properties over the INI
 * configuration, each getter with its fallback and each setter writing one
 * key (creating its section when missing).
 */
module Settings {
  import opened Wrappers
  import opened Config
  import FolderList

  class SettingsDialogViewModel {
    /** The parsed config.ini; reading and writing the file itself is not modelled. */
    var config: Config

    constructor (config: Config)
      ensures this.config == config
    {
      this.config := config;
    }

    /** emulator_path: [paths] xenia_path, '' when absent. */
    function EmulatorPath(): (r: string)
      reads this
      ensures Get(config, "paths", "xenia_path") == None ==> r == ""
      ensures Get(config, "paths", "xenia_path").Some? ==> r == Get(config, "paths", "xenia_path").value
    {
      GetOr(config, "paths", "xenia_path", "")
    }

    method SetEmulatorPath(value: string)
      modifies this
      ensures config == Set(old(config), "paths", "xenia_path", value)
      ensures EmulatorPath() == value
      ensures "paths" in config
      ensures forall s, k | s != "paths" || k != "xenia_path" :: Get(config, s, k) == Get(old(config), s, k)
    {
      config := Set(config, "paths", "xenia_path", value);
    }

    /** scan_folders: [library] scan_folders split on ';', empty pieces dropped. */
    function ScanFolders(): (r: seq<string>)
      reads this
      ensures forall p :: p in r <==> p != "" && p in FolderList.Split(GetOr(config, "library", "scan_folders", ""))
      ensures Get(config, "library", "scan_folders") == None ==> r == []
    {
      FolderList.Parse(GetOr(config, "library", "scan_folders", ""))
    }

    /**
     * The scan_folders setter: drops repeated folders, keeping the first
     * occurrence of each, and stores the rest joined by ';'. Folders that
     * are non-empty and free of ';' read back exactly as stored, without
     * repeats.
     */
    method SetScanFolders(folders: seq<string>)
      modifies this
      ensures config == Set(old(config), "library", "scan_folders", FolderList.Format(folders))
      ensures (forall f | f in folders :: f != "" && FolderList.Separator !in f) ==>
                ScanFolders() == FolderList.Dedup(folders) && FolderList.Distinct(ScanFolders())
      ensures forall s, k | s != "library" || k != "scan_folders" :: Get(config, s, k) == Get(old(config), s, k)
    {
      var unique: seq<string> := [];
      var i := 0;
      while i < |folders|
        invariant 0 <= i <= |folders|
        invariant unique == FolderList.Dedup(folders[..i])
      {
        assert folders[..i + 1][..i] == folders[..i];
        if folders[i] !in unique {
          unique := unique + [folders[i]];
        }
        i := i + 1;
      }
      assert folders[..|folders|] == folders;
      config := Set(config, "library", "scan_folders", FolderList.Join(unique));
      if forall f | f in folders :: f != "" && FolderList.Separator !in f {
        FolderList.ParseFormat(folders);
        FolderList.FormatDistinct(folders);
      }
    }

    /** theme: [appearance] theme, 'System Default' when absent. */
    function Theme(): (r: string)
      reads this
      ensures Get(config, "appearance", "theme") == None ==> r == "System Default"
      ensures Get(config, "appearance", "theme").Some? ==> r == Get(config, "appearance", "theme").value
    {
      GetOr(config, "appearance", "theme", "System Default")
    }

    method SetTheme(value: string)
      modifies this
      ensures config == Set(old(config), "appearance", "theme", value)
      ensures Theme() == value
      ensures forall s, k | s != "appearance" || k != "theme" :: Get(config, s, k) == Get(old(config), s, k)
    {
      config := Set(config, "appearance", "theme", value);
    }

    /** The three custom theme colours: [CustomTheme] bg_color, text_color, accent_color, '' when absent. */
    function CustomColor(key: string): (r: string)
      reads this
      ensures Get(config, "CustomTheme", key) == None ==> r == ""
      ensures Get(config, "CustomTheme", key).Some? ==> r == Get(config, "CustomTheme", key).value
    {
      GetOr(config, "CustomTheme", key, "")
    }

    function CustomBgColor(): (r: string)
      reads this
      ensures Get(config, "CustomTheme", "bg_color") == None ==> r == ""
      ensures Get(config, "CustomTheme", "bg_color").Some? ==> r == Get(config, "CustomTheme", "bg_color").value
    {
      CustomColor("bg_color")
    }

    function CustomTextColor(): (r: string)
      reads this
      ensures Get(config, "CustomTheme", "text_color") == None ==> r == ""
      ensures Get(config, "CustomTheme", "text_color").Some? ==> r == Get(config, "CustomTheme", "text_color").value
    {
      CustomColor("text_color")
    }

    function CustomAccentColor(): (r: string)
      reads this
      ensures Get(config, "CustomTheme", "accent_color") == None ==> r == ""
      ensures Get(config, "CustomTheme", "accent_color").Some? ==> r == Get(config, "CustomTheme", "accent_color").value
    {
      CustomColor("accent_color")
    }

    /** The colour setters: one key of [CustomTheme] changes, the other colours keep their values. */
    method SetCustomColor(key: string, value: string)
      modifies this
      ensures config == Set(old(config), "CustomTheme", key, value)
      ensures CustomColor(key) == value
      ensures forall k | k != key :: CustomColor(k) == old(CustomColor(k))
      ensures forall s, k | s != "CustomTheme" || k != key :: Get(config, s, k) == Get(old(config), s, k)
    {
      config := Set(config, "CustomTheme", key, value);
    }

    method SetCustomBgColor(value: string)
      modifies this
      ensures config == Set(old(config), "CustomTheme", "bg_color", value)
      ensures CustomBgColor() == value
      ensures CustomTextColor() == old(CustomTextColor()) && CustomAccentColor() == old(CustomAccentColor())
    {
      SetCustomColor("bg_color", value);
    }

    method SetCustomTextColor(value: string)
      modifies this
      ensures config == Set(old(config), "CustomTheme", "text_color", value)
      ensures CustomTextColor() == value
      ensures CustomBgColor() == old(CustomBgColor()) && CustomAccentColor() == old(CustomAccentColor())
    {
      SetCustomColor("text_color", value);
    }

    method SetCustomAccentColor(value: string)
      modifies this
      ensures config == Set(old(config), "CustomTheme", "accent_color", value)
      ensures CustomAccentColor() == value
      ensures CustomBgColor() == old(CustomBgColor()) && CustomTextColor() == old(CustomTextColor())
    {
      SetCustomColor("accent_color", value);
    }
  }
}
